# Model of the robot hand's USB handler

The repository drives a robot hand over USB. This project models the layers above libusb and proves what
they keep, layer on layer.

* **Ring** (`Bits.dfy`, `RingBuffer.dfy`, `SpscRing.dfy`): the single-producer single-consumer ring with
  free-running 64-bit counters. It is modelled once as the class it is, and once with every counter load,
  slot transfer and counter store of the two threads as a step of its own.
* **Transmit path** (`TransferPool.dfy`, `Wire.dfy`, `Frames.dfy`, `TransmitBuffer.dfy`): the fixed pool of
  transfers that circulates through the ring, the records on the wire, the frames they are packed and padded
  into, and the class that fills, submits and recycles transfers while completions interrupt it.
* **Transaction engine** (`StorageUnit.dfy`, `Handler.dfy`, `Completion.dfy`, `Deadline.dfy`, `Worlds.dfy`,
  `CheckedWrites.dfy`, `CheckedReads.dfy`, `Progress.dfy`, `StoredValue.dfy`, `FineSteps.dfy`, `SerialRuns.dfy`): the storage units, their entry
  points, the reply parser and the tick loop. The class methods are proved against functions on one unit. Those
  functions then make up two kinds of run: coarse ones, where a user call, the tick of one unit and the handling
  of one reply are each one step, and fine ones, where each load and each store is. `Completions.TickPassIsRun`
  and `Completions.FrameIsRun` tie the methods to coarse runs, and `SerialRuns.SerialRunIsCoarse` ties fine runs
  to coarse ones. What success means is in `CheckedWrites` and `CheckedReads`, that lost messages are made up for is
  in `Progress`, and where a unit's value comes from is in `StoredValues`.
* **Completion** (`Latch.dfy`, `BulkOperation.dfy`): the latch with any number of workers, and the bulk reads
  that wait on it.
* **Addressing** (`Layout.dfy`, `Devices.dfy`, `HandDevice.dfy`, `Dispatch.dfy`): how the tree of device
  classes hands out storage ids and wire keys, and where a reply with a given key goes.
* **Values** (`Position.dfy`): angles as 32-bit fixed point under floating-point error, and what storing a
  loaded value restores.

Time is the `now` given to each tick. Exceptions are `None` or a false result. A step that its thread is not
in a position to take changes nothing, so every sequence of steps is a run.

## Where the code does not do what it says

Each point is proved: an input that shows it, and the condition under which the code does meet the promise.

* Lines 160 and 184 of the repository's own `README.md` say that `read` and `write` guarantee success upon return.
  The code raises `TimeoutError` on failure, and success does not always mean what it says. What follows is about
  ticks on a steady clock and a device that does what it acknowledges and answers in the declared widths, because a
  narrower answer can confirm a write that never arrived (`CheckedWrites.NarrowAnswerConfirms`). For writes its
  register does not change by itself.
  * Take an unmasked unit to which replies with its key lead, any other unit of the key left alone, and no unchecked
    write to the unit before the operation ends, except, during a write, of the same value. On every run success
    then means what it says exactly when the messages in flight for the key at acceptance are harmless: for a
    write, only writes of the same value and no reply that would pass for a confirmation of something untrue; for a
    read, only current answers (`CheckedWrites.WriteSafetyExactly`, `CheckedReads.ReadSafetyExactly`).
  * `write_async_unchecked` does overwrite the value of a busy unit. During a write the other value is then sent and
    read back, and the checked write is told success for it with nothing else in flight
    (`CheckedWrites.UncheckedOverwrites`). During a read it can take the place of the answer
    (`CheckedReads.UncheckedOverwrites`).
  * Two units of one key at work together break it likewise (`CheckedWrites.SharedKeyWrite`). On the hand only
    `RPdoId` and `TPdoId` share a key (`Dispatch.HandOwns`).
  * A masked unit sends nothing and is told success at once, so there success means what it says exactly when the
    register holds the value already and nothing in flight changes it (`CheckedWrites.MaskedWriteExactly`).
    It is told failure as well exactly when its raw timeout, which is still in the timeout union, is not above the
    clock (`Progress.MaskedEndsAtOnce`).
* The success branch of the tick (`src/protocol/handler.cpp:458-465`) falls through to the deadline test. An
  operation whose successful tick comes at or after the time in the timeout union is told success and then
  failure (`Completions.BothVerdicts`); `Completions.CompletionLog` says exactly when. The second callback
  counts the latch down once more. The latch's count is the number still pending exactly when that has happened
  to no operation (`BulkOperations.BulkCounts`). Otherwise a wait can end with another operation still under way
  (`BulkOperations.DoubleVerdictEndsWaitEarly`). Once all have ended it never returns at all
  (`BulkOperations.WaitEndsUnlessDoubled`), as after a single `read` (`BulkOperations.DoubledReadHangs`).
* The tick and the event thread load the operation word and store it later. On a run on which no thread stores to
  a unit while another is between its first access to it and its last, this changes nothing: the run is one of
  whole calls, ticks and replies, and the law of the completion log holds (`SerialRuns.SerialRunIsCoarse`,
  `SerialRuns.SerialVerdicts`). Two ways to break the law are shown, each beginning with the first store that
  violates this. A reply loaded before a timeout and stored after it brings a read back, which is told failure
  and then success (`SerialRuns.LateStoreResurrects`). A read started between a success callback and the deadline
  test behind it is failed by the rest of that tick, exactly when its raw timeout is not above the clock
  (`SerialRuns.SuccessFailsTheNext`). What every interleaving keeps is the pairing of modes with states
  (`FineSteps.PhaseInvariant`).
* `RPdoId` and `TPdoId` are declared with the same index and sub-index, and the later initialisation wins. No
  reply reaches the unit of `RPdoId`, so no checked write of it can ever succeed
  (`Dispatch.RPdoIdNeverSucceeds`, `Dispatch.RPdoIdTimesOut`).
* A reversed position does not restore the lowest word, and negating the lowest position overflows, as every angle
  from a turn and a step below does (`Positions.LowAngleOverflows`). The exact conditions are `Positions.StoreLoad`
  and `Positions.StoreOverflows`.
* The latch of `read` and `write` is a local variable, yet the last worker can still have its notification to make
  when the wait has returned (`LatchSteps.WaitOutrunsNotifier`). That is all it can still do with the latch
  (`LatchSteps.WaitLeavesNotifiers`).

## Model

| member | source | states |
|---|---|---|
| Bits.RoundUpToNextPowerOf2 | src/utility/ring_buffer.hpp:182-192 | for 1 <= n <= 2^63 the six shift-and-or steps give the least power of two at least n; outside that range the increment or decrement wraps and the result is 0 |
| Bits.SmearFillsOnes | src/utility/ring_buffer.hpp:184-189 | the six steps fill every bit below the highest set one |
| Bits.CapacityDividesWord | src/utility/ring_buffer.hpp:15-22 | a power-of-two capacity divides 2^64, so a wrapped counter names the same slot |
| Bits.AndMask | src/utility/ring_buffer.hpp:61-61 | masking a counter with capacity - 1 is its remainder modulo the capacity |
| RingBuffers.RingBuffer.constructor | src/utility/ring_buffer.hpp:15-22 | up to 2^63 the ring starts empty and holds at least the requested number, the least power of two that does, never fewer than two; beyond that the round-up overflows and there are no slots at all |
| RingBuffers.RingBuffer.Front | src/utility/ring_buffer.hpp:55-62 | the oldest element, or nothing when the ring is empty, whatever the counters have wrapped to |
| RingBuffers.RingBuffer.EmplaceBackMulti | src/utility/ring_buffer.hpp:80-106 | appends in order as many items as there is room for and says how many; what was there stays |
| RingBuffers.RingBuffer.FillSlots | src/utility/ring_buffer.hpp:93-99 | the two segments place the items in consecutive slots around the end of the array and touch no other slot |
| RingBuffers.RingBuffer.PushBack | src/utility/ring_buffer.hpp:119-125 | appends one item unless the ring is full, and says which |
| RingBuffers.RingBuffer.PopFrontMulti | src/utility/ring_buffer.hpp:137-166 | takes the oldest elements, up to the limit, in order, and leaves exactly the others |
| RingBuffers.RingBuffer.ReadSlots | src/utility/ring_buffer.hpp:149-160 | the two segments read the elements in order around the end of the array |
| RingBuffers.PushedWindow | src/utility/ring_buffer.hpp:86-102 | after the filled slots and the wrapped counter store the window of held elements is the old one followed by the items |
| RingBuffers.PoppedWindow | src/utility/ring_buffer.hpp:143-163 | after the wrapped counter store the window is the old one without what was popped |
| SpscRing.StepKeepsInv | src/utility/ring_buffer.hpp:82-166 | every single load, slot transfer or store of either thread keeps the ring's invariant |
| SpscRing.FifoSafety | src/utility/ring_buffer.hpp:82-166 | on every interleaving, past any number of counter wraps, what has been popped is a prefix of what has been pushed, and never more than the capacity is held or claimed by the counters |
| SpscRing.WritesAvoidReads | src/utility/ring_buffer.hpp:93-99 | on every interleaving no slot being written is one still to be read |
| SpscRing.RefinesQueue | src/utility/ring_buffer.hpp:10-11 | every step is a step of a bounded queue: append one batch, take one element from the head, or nothing |
| TransferPool.Conservation | src/driver/async_transmit_buffer.hpp:142-195 | in every reachable state each allocated transfer is in exactly one of ring, popped by the sender, in flight or being recycled, and the ring is never found full |
| TransferPool.RoomToRecycle | src/driver/async_transmit_buffer.hpp:183-194 | whenever a completion is about to push, the ring has room, even when the pool exactly fills it |
| TransferPool.EarlySubmissionFillsRing | src/driver/async_transmit_buffer.hpp:147-150 | with the submission inside the pop instead, a pool that exactly fills the ring does find it full |
| TransferPool.EachIdOnce | src/driver/async_transmit_buffer.hpp:26-46 | the constructor allocates each transfer once |
| Wire.LittleEndianRoundTrip | src/protocol/protocol.hpp:42-42 | a value that fits its width is read back from the bytes it is laid out in |
| Wire.DecodeEncodeReply | src/protocol/protocol.hpp:34-89 | every well-formed reply is recovered from its record |
| Wire.EncodeDecodeReply | src/protocol/protocol.hpp:34-89 | every record of known control byte and full length is the record of the reply read from it |
| Wire.ParseIsExact | src/protocol/handler.cpp:347-372 | on arbitrary bytes the decoded replies are exactly the bytes consumed, and the end says why parsing stopped: the sentinel, a zero byte, a truncated record or an unknown control byte |
| Wire.ParseRecoversReplies | src/protocol/handler.cpp:347-372 | the encoding of any well-formed replies followed by any zero padding is read back as exactly those replies |
| Wire.ParseRecoversRequests | src/protocol/protocol.hpp:28-70 | padded requests are read back by the device as exactly those requests, a zero byte not being a request |
| Wire.RequestLayout | src/protocol/protocol.hpp:28-70 | every byte of a request record: the command, the index high byte first, the sub-index, a write's value low byte first |
| Wire.ReplyLayout | src/protocol/protocol.hpp:34-89 | every byte of a reply record likewise |
| Wire.EncodeRequest | src/protocol/handler.cpp:616-636 | a request takes at least 4 and at most 12 bytes |
| Frames.PaddedLengthIsLeast | src/protocol/handler.cpp:290-295 | the padded length is the least multiple of 16 that leaves room for the checksum, at most 512 |
| Frames.DescriptionReadsBack | src/protocol/handler.cpp:297-303 | the 10 and 6 bits of the big-endian description give back the receive window and the padded length |
| Frames.FrameReadsBack | src/protocol/handler.cpp:290-304 | a submitted frame gives back its length, window, type, payload and zero fill; its two description bytes spelled out |
| Frames.SealedFrameCarries | src/protocol/handler.cpp:290-304 | sealing a transfer filled with requests yields a frame that carries exactly those |
| Frames.CarriedRequestsDecode | src/protocol/protocol.hpp:11-70 | a device decoding such a frame gets exactly the requests it carries |
| Frames.Recycle | src/driver/async_transmit_buffer.hpp:179-181 | a recycled transfer has length 8 and type 0 with the header constants in place |
| TransmitBuffers.AsyncTransmitBuffer.constructor | src/driver/async_transmit_buffer.hpp:20-47 | every transfer is allocated, prefilled and in the ring, in order |
| TransmitBuffers.AsyncTransmitBuffer.TryFetchBuffer | src/driver/async_transmit_buffer.hpp:98-129 | with completions arriving between its looks at the ring, a request of at most 502 bytes closes at most one frame, and only one of another kind or without room for it; it gets null only when the pool is empty, and otherwise its bytes lie directly behind the payload collected so far |
| TransmitBuffers.AsyncTransmitBuffer.SendRefused | src/driver/async_transmit_buffer.hpp:116-118 | a front transfer that refuses goes out as it is, and every free transfer is fresh then |
| TransmitBuffers.AsyncTransmitBuffer.ClaimBytes | src/driver/async_transmit_buffer.hpp:119-127 | the bytes handed out lie directly behind what the front transfer has collected |
| TransmitBuffers.AsyncTransmitBuffer.AppendRecord | src/protocol/handler.cpp:246-266 | a record is appended whole to the open frame, or the open frame is submitted whole and the record starts the next one |
| TransmitBuffers.AsyncTransmitBuffer.TriggerTransmission | src/driver/async_transmit_buffer.hpp:131-139 | submits the front transfer, sealed, unless the pool is empty or the frame is empty and empty ones are not allowed |
| TransmitBuffers.AsyncTransmitBuffer.TriggerTransmissionNocheck | src/driver/async_transmit_buffer.hpp:142-165 | moves the front transfer from the ring to flight and hands its sealed frame over; all free transfers are fresh afterwards |
| TransmitBuffers.AsyncTransmitBuffer.UsbTransmitComplete | src/driver/async_transmit_buffer.hpp:167-195 | recycles the transfer into a ring that has room and leaves the frame being filled untouched |
| TransmitBuffers.AsyncTransmitBuffer.Drain | src/driver/async_transmit_buffer.hpp:49-90 | frees everything that was in the ring, in order, and whatever comes back while it waits; the ring is empty at the end and what is left unreleased is exactly what is still in flight, nothing if nothing was; nothing is freed twice, and zero means every transfer was freed exactly once |
| TransmitBuffers.RefusedOnce | src/protocol/handler.cpp:248-261 | a refused front transfer is not fresh, so the next one cannot be refused |
| TransmitBuffers.SubmitKeepsOk | src/driver/async_transmit_buffer.hpp:142-165 | submission keeps conservation and leaves every free transfer with length 8 and type 0 |
| TransmitBuffers.CompleteKeepsOk | src/driver/async_transmit_buffer.hpp:167-195 | recycling keeps conservation, freshness behind the front and what the front has collected |
| TransmitBuffers.AllFreed | src/driver/async_transmit_buffer.hpp:57-59 | an empty ring with as many freed as allocated has freed each transfer exactly once |
| Handlers.Handler.constructor | src/protocol/handler.cpp:34-46 | every unit starts idle and the tick's buffer holds all its transfers |
| Handlers.Handler.InitStorageInfo | src/protocol/handler.cpp:50-54 | describes one unit and makes its key lead to it, replacing whatever the key led to |
| Handlers.Handler.ReadAsyncUnchecked | src/protocol/handler.cpp:56-68 | starts a read without callback on an idle unit, leaves a busy one alone |
| Handlers.Handler.ReadAsync | src/protocol/handler.cpp:70-85 | starts a read with its callback on an idle unit, refuses and changes nothing on a busy one |
| Handlers.Handler.WriteAsyncUnchecked | src/protocol/handler.cpp:87-102 | stores the value first, even on a busy unit whose operation it then does not replace |
| Handlers.Handler.WriteAsync | src/protocol/handler.cpp:104-120 | stores the value and starts a write on an idle unit, refuses and stores nothing on a busy one |
| Handlers.Handler.HandleReply | src/protocol/handler.cpp:374-438 | one reply changes the unit its key leads to and no other, and an unknown key is reported |
| Handlers.Handler.ReadSdoFrame | src/protocol/handler.cpp:347-372 | on arbitrary bytes the parsing loop terminates inside the buffer, leaves exactly the effects of the records decoded up to the first unknown key, and throws exactly on a malformed record or an unknown key |
| Handlers.Handler.ReadPdoFrame | src/protocol/handler.cpp:523-539 | stores the twenty positions of a long enough answer whose read was executed and counts it, and changes nothing otherwise |
| Handlers.PdoPositionsReadBack | src/protocol/protocol.hpp:108-112 | of twenty positions sent finger by finger each is read back as that joint's |
| Handlers.Handler.ReceiveTransferCompleted | src/protocol/handler.cpp:318-345 | dispatches on the frame type: replies change units, PDO answers the positions, and a frame too short for the header or of another type nothing |
| Handlers.Handler.TickUnit | src/protocol/handler.cpp:449-514 | one unit's turn: its new state, its callbacks in order and the request it wants sent |
| Handlers.Handler.TickPass | src/protocol/handler.cpp:446-517 | a tick over n units, with any calls of the user thread and any replies between their turns: the storage, callbacks and numbering are those of the run of these events; the frames submitted carry exactly the requests this run issued, in order, none split; at most 12n/491 + 1 frames, and with more than 12n/491 free transfers it never finds no buffer; where it does, the run goes just as far as the unit it had reached |
| Handlers.Handler.VisitUnits | src/protocol/handler.cpp:449-515 | the loop over the units, with completions, calls and replies interleaved: it runs and packs as above and fails only when the pool is empty |
| Handlers.Handler.VisitUnit | src/protocol/handler.cpp:449-514 | one turn of the loop: what the others do before it, the unit's tick and callbacks, then its request packed behind those before it |
| Handlers.Handler.Perform | src/protocol/handler.cpp:56-120 | each entry point and each reply, on the handler, is its event on the system |
| Handlers.PackOneMore | src/protocol/handler.cpp:246-266 | one more request extends the open group, or closes it and opens the next |
| Handlers.PackedCount | src/protocol/handler.cpp:248-251 | a frame closed on the way holds at least 491 bytes of records, hence the bound on the frames |
| Handlers.DeviceDecodesTick | src/protocol/handler.cpp:446-517 | a device decoding the frames of a tick one after the other gets exactly the requests its turns issued, in order |
| StorageUnits.NextVersion | src/protocol/handler.cpp:387-390 | a read never leaves the 32-bit version at zero or where it was |
| StorageUnits.UnknownStops | src/protocol/handler.cpp:431-438 | nothing after a reply with an unknown key has any effect |
| StorageUnits.KnownExactly | src/protocol/handler.cpp:431-438 | a frame is taken to its end exactly when every value and acknowledgement in it finds its unit |
| StorageUnits.ErrorsIgnored | src/protocol/handler.cpp:405-429 | an error reply, whatever its key, changes nothing wherever it stands in a frame |
| StoredValues.StepStores | src/protocol/handler.cpp:381-403 | in one event only a write call, or an answer to a unit that is reading, changes the unit's value; only the answer changes its version |
| StoredValues.ValueIsLastStored | src/protocol/handler.cpp:206-220 | on every run a unit's value is what was last stored in it by a write call or by an answer taken while reading |
| StoredValues.VersionCountsReads | src/protocol/handler.cpp:385-390 | on every run the version is the number of answers taken, counted from 1 again past the highest 32-bit value, so it is zero exactly before the first |
| Completions.RequestsWellFormed | src/protocol/handler.cpp:486-514 | every write issued on any run carries a value of its declared width |
| Completions.StepKeepsInv | src/protocol/handler.cpp:70-120 | no two busy units ever hold the same accepted operation |
| Completions.CompletionLog | src/protocol/handler.cpp:449-485 | on every run an operation never accepted is told nothing, a pending one nothing yet, and an ended one exactly what the one tick that ended it says: success, failure, or success then failure when the successful tick came at or after the time in the union |
| Completions.BothVerdicts | src/protocol/handler.cpp:458-485 | a run on which one accepted read is told success and then failure |
| Completions.TickPassIsRun | src/protocol/handler.cpp:449-515 | one pass of the loop is the run of its units' turns |
| Completions.QuietPass | src/protocol/handler.cpp:449-515 | with nothing between the turns the pass issues what the units ask for, in unit order |
| Completions.FrameIsRun | src/protocol/handler.cpp:347-372 | one received frame is the run of its replies' deliveries, up to the first unknown key |
| Deadlines.DeadlineIsSaturatingSum | src/protocol/handler.cpp:467-473 | the deadline is the sum of now and the timeout, or the clock's maximum where that is negative or does not fit, with no intermediate overflow |
| Deadlines.DeadlineHeld | src/protocol/handler.cpp:467-478 | on every run, past its first tick an unmasked busy unit's union holds the deadline computed from the call that started the operation and the tick that armed it |
| Deadlines.NoEarlyFailure | src/protocol/handler.cpp:479-485 | failure is never told before that deadline, and never, short of the clock's maximum, for a negative or overflowing timeout |
| Deadlines.EndsAtDeadline | src/protocol/handler.cpp:479-485 | an armed operation reached by no value and no acknowledgement, whatever error replies come, is pending exactly until the first tick at or after its deadline, which tells it failure; nothing else ever tells it anything |
| Deadlines.OverByDeadline | src/protocol/handler.cpp:479-485 | whatever replies come, an operation past its first tick is over once a tick at or after its deadline has come |
| Worlds.GoneStaysGone | src/protocol/handler.cpp:449-485 | once an operation has been told its verdicts no later action tells it success |
| Worlds.StepKeepsOwner | src/protocol/handler.cpp:50-54 | a unit goes on owning its key as long as nobody starts anything on another unit with it |
| Worlds.SentByOwner | src/protocol/handler.cpp:486-514 | only the owner's tick puts requests with its key on the wire, reads or writes of its own value |
| Worlds.Quiesce | src/protocol/handler.cpp:374-424 | from any world losses alone lead to one with nothing in flight for a key, so the theorems below apply again |
| CheckedWrites.AcceptedWrite | src/protocol/handler.cpp:104-120 | acceptance with harmless traffic establishes the invariant of a write under way |
| CheckedWrites.RunKeepsWriting | src/protocol/handler.cpp:467-514 | every permissible run keeps it until the operation ends: any message from which the host would conclude success is one the device could only send while holding the value |
| CheckedWrites.WriteSafety | src/protocol/handler.cpp:374-424 | over lossy, duplicating, reordering channels, success told to a write accepted with harmless traffic means the register holds the value, by the acknowledgement or by reading back |
| CheckedWrites.WriteSafetyExactly | src/protocol/handler.cpp:374-424 | for an unmasked unit that is the only one at work with its key: on all runs with answers of the declared width, a register that changes only by writes and no unchecked write of another value to the busy unit, success means the register holds the value exactly when every write in flight at acceptance carries it and every reply in flight that the write would believe is true; with no timeout an answer to a read is never believed |
| CheckedWrites.ToldValueStays | src/protocol/handler.cpp:458-485 | on any unit, whatever replies come, a checked write told either verdict has its value in the unit before the tick that tells it and after |
| CheckedWrites.StaleAcknowledgement | src/protocol/handler.cpp:410-424 | any acknowledgement in flight while the register differs makes some run tell a false success |
| CheckedWrites.StaleWrite | src/protocol/handler.cpp:410-424 | so does any write of another value in flight |
| CheckedWrites.StaleAnswer | src/protocol/handler.cpp:394-402 | so does any answer in flight that carries the value, unless the timeout is zero |
| CheckedWrites.MaskedWriteExactly | src/protocol/handler.cpp:456-465 | for a masked unit success means that the register holds the value exactly when it did at acceptance and every write in flight carries it |
| CheckedWrites.MaskedTells | src/protocol/handler.cpp:456-465 | a masked unit is told success at its first tick, having sent nothing |
| CheckedWrites.SharedKeyWrite | include/wujihandcpp/data/hand.hpp:27-28 | two units of one key at work together: one is told success for its value with the other's in the register |
| CheckedWrites.UncheckedOverwrites | src/protocol/handler.cpp:87-95 | an unchecked write of any other value during any checked write with a timeout: sent, written and read back, it makes the checked one told success with the register at the other value |
| CheckedWrites.NarrowAnswerConfirms | src/protocol/handler.cpp:394-396 | an answer in a width in which register and value agree confirms a write that never arrived |
| CheckedWrites.SameValueKeepsWriting | src/protocol/handler.cpp:87-95 | an unchecked write of the same value does not disturb a checked one |
| CheckedReads.RunKeepsReading | src/protocol/handler.cpp:374-403 | every permitted run keeps the invariant of a read under way |
| CheckedReads.HeldAtSomeTime | src/protocol/handler.cpp:385-393 | every value counted as held is one the register had at some moment of the run |
| CheckedReads.ReadSafety | src/protocol/handler.cpp:374-403 | success told to a read accepted with current answers in flight means the unit's value is one the register held since acceptance, and still is after the tick that tells it |
| CheckedReads.ReadSafetyExactly | src/protocol/handler.cpp:374-403 | on all runs with answers of the declared width and no unchecked write to the busy unit that holds exactly when every answer in flight for the key at acceptance says what the register holds |
| CheckedReads.UncheckedOverwrites | src/protocol/handler.cpp:87-95 | an unchecked write between the answer and the tick that tells it leaves its own value in the unit, told as read |
| Progress.WriteIsSent | src/protocol/handler.cpp:87-120 | a write call, checked or not, on an idle unmasked unit: the first tick sends nothing, the second, at any time before the deadline, exactly the write of the value cut to size; nobody is told anything |
| Progress.ReadIsSent | src/protocol/handler.cpp:56-85 | a read call, checked or not, likewise sends exactly a read of the key, never a write |
| Progress.LostWriteIsSentAgain | src/protocol/handler.cpp:394-402 | a sent write whose register differs is asked about, and after the answer the next tick, at any time before the deadline, sends the same write again |
| Progress.LostAnyNumberOfTimes | src/protocol/handler.cpp:486-514 | however often the write is lost it is on the wire again afterwards, the unit as it was and nobody told anything |
| Progress.AcknowledgementIgnored | src/protocol/handler.cpp:410-424 | an acknowledgement changes nothing while the write waits to be confirmed by reading |
| Progress.WriteConfirmed | src/protocol/handler.cpp:394-402 | once the write arrives, the next question and answer end it: told success once, unit idle, register at the value |
| Progress.AcknowledgedFirst | src/protocol/handler.cpp:410-424 | an acknowledgement that comes when an older answer has set the write to be sent again ends it instead: told success with the register at the value, nothing sent again |
| Progress.WriteGetsThrough | src/protocol/handler.cpp:87-120 | a whole write, from the call on, for any tick times before the deadline and any number of lost transmissions: the register holds the value, a checked one is told success once, the unit is idle |
| Progress.ReadGetsThrough | src/protocol/handler.cpp:56-85 | a whole read, with any number of lost requests: the unit holds what the register does, with a new version, a checked one is told success once, nothing has been written |
| Progress.MaskedEndsAtOnce | src/protocol/handler.cpp:456-485 | any call on an idle masked unit is over with the next tick, with nothing sent and the value kept; a checked one is told success, and failure too exactly when its raw timeout is not above the clock |
| FineSteps.PhaseInvariant | src/protocol/handler.cpp:381-493 | on every interleaving of loads and stores of the three threads, READ is paired only with WAITING, READING or SUCCESS, WRITE only with WAITING, WRITING, WRITING_CONFIRMING or SUCCESS, and NONE never with WAITING |
| FineSteps.AdvanceKeepsPhase | src/protocol/handler.cpp:381-493 | each single load or store keeps that pairing, in the word and in every thread's copy of it |
| FineSteps.UninterruptedTick | src/protocol/handler.cpp:449-493 | the fine steps of one unit's turn, taken without interruption, are the coarse tick |
| FineSteps.UninterruptedReply | src/protocol/handler.cpp:374-424 | the fine steps of one reply, taken without interruption, are the coarse reply |
| FineSteps.UninterruptedCall | src/protocol/handler.cpp:56-120 | the fine steps of any of the four entry points, taken without interruption, are the coarse call |
| SerialRuns.OnlyStoresStore | src/protocol/handler.cpp:65-119 | every step not named a store leaves the unit alone |
| SerialRuns.StepConsistent | src/protocol/handler.cpp:381-493 | a step that does not store into another thread's work keeps every thread heading where its coarse event leads |
| SerialRuns.CallShowsWhole | src/protocol/handler.cpp:62-67 | the operation word is stored last: however the tick and the event thread run during a call on an idle unit, they do nothing and the unit ends as if the call were alone |
| SerialRuns.SerialRunIsCoarse | src/protocol/handler.cpp:56-120 | a fine run on which no thread stores to the unit within another's work is a coarse run of whole events in the order of their first stores: same unit, log and numbering between pieces of work, and never a callback ahead of it |
| SerialRuns.SerialVerdicts | src/protocol/handler.cpp:449-485 | on such a run no operation is ever told anything but success, failure, or success then failure |
| SerialRuns.LateStoreResurrects | src/protocol/handler.cpp:381-393 | any reply loaded before a tick times a read out and stored after it: told failure and then success; the guard holds up to the store of the timeout |
| SerialRuns.SuccessFailsTheNext | src/protocol/handler.cpp:458-485 | any read started between a success and the deadline test behind it is failed by that tick exactly when its raw timeout is not above the clock; the guard holds up to the call's first store |
| Latches.Latch.CountUp | src/device/latch.cpp:16-18 | one more operation is waited for |
| Latches.Latch.CountDown | src/device/latch.cpp:20-27 | one operation fewer, one error more on failure, and a notification exactly when the count reaches zero |
| Latches.Latch.TryWaitInternal | src/device/latch.cpp:6-14 | returns only having seen as many arrivals as were counted, with the errors since the last wait, and starts again from none; it does return when exactly those arrive, and goes on waiting otherwise |
| Latches.Latch.TryWait | include/wujihandcpp/device/latch.hpp:33-33 | the same, saying whether none failed |
| LatchSteps.RunKeepsInv | src/device/latch.cpp:6-27 | every interleaving of any number of workers and one waiter keeps the counts equal to the operations not yet done and the failures not yet reported |
| LatchSteps.WaitReportsFailures | src/device/latch.cpp:6-14 | when a wait returns, all counted operations are done and it reports exactly the failures since the previous wait |
| LatchSteps.NoLostWakeup | src/device/latch.cpp:20-27 | a waiter asleep at count zero always has a notification coming, and that notification ends the wait |
| LatchSteps.OverdrawnWaitHangs | src/device/latch.cpp:6-14 | with a count below zero and nobody left to count, no sequence of steps ever ends a wait |
| LatchSteps.WaitLeavesNotifiers | src/device/latch.cpp:20-27 | when a wait returns, the workers have nothing left to do with the latch but to notify |
| LatchSteps.WaitOutrunsNotifier | src/device/latch.cpp:6-27 | with the count at zero and a notification still to come, a wait goes through and leaves it still to come |
| BulkOperations.ReadAsyncAll | include/wujihandcpp/device/data_operator.hpp:70-85 | counts up before each start, stops at the first busy unit, and leaves the latch one too high there |
| BulkOperations.StartsExactlyWhenIdle | include/wujihandcpp/device/data_operator.hpp:70-85 | all are started exactly when all are idle and distinct, and no other unit is touched |
| BulkOperations.StartIsRun | include/wujihandcpp/device/data_operator.hpp:70-85 | the loop is the run of its accepted reads |
| BulkOperations.CountsAreCalls | include/wujihandcpp/device/data_operator.hpp:82-82 | the latch's counts are the operations' callbacks so far and the failures among them |
| BulkOperations.BulkWait | include/wujihandcpp/device/data_operator.hpp:46-85 | for any distinct idle units, with ticks and replies anywhere among the calls, all reads are accepted and the exact counts of the next row hold |
| BulkOperations.BulkCounts | include/wujihandcpp/device/data_operator.hpp:131-160 | for any checked operations of any run, reads or writes: the count is the number pending minus the number told both verdicts, so it is the number pending exactly when there is none of those; the errors are the failed and those; count and errors are both zero exactly when all succeeded |
| BulkOperations.AcceptedInARow | include/wujihandcpp/device/data_operator.hpp:70-85 | calls on distinct idle units are all accepted, numbered in a row, whatever ticks and replies fall between them |
| BulkOperations.WaitEndsUnlessDoubled | src/device/latch.cpp:6-14 | once all operations have ended a wait comes to its end exactly when none was told both verdicts, and then returns how many failed, zero exactly when all succeeded; otherwise it never ends |
| BulkOperations.DoubledReadHangs | src/protocol/handler.cpp:458-485 | a single read told both verdicts leaves the count at minus one, and its wait never returns |
| BulkOperations.DoubleVerdictEndsWaitEarly | src/protocol/handler.cpp:458-485 | a double verdict brings the count to zero while the other operation is pending |
| Layout.IdsTile | include/wujihandcpp/device/data_operator.hpp:199-208 | for any tree, of any depth and counts, the nodes' id ranges in initialisation order are exactly the ids from the offset up to data_count, no gap, no overlap |
| Layout.IdInRange | include/wujihandcpp/device/hand.hpp:253-257 | the id the nested sub calls arrive at lies in the node's range |
| Layout.EveryIdAddressed | include/wujihandcpp/device/hand.hpp:253-257 | every id of the tree belongs to a datum of some node |
| Layout.IdsInjective | include/wujihandcpp/device/finger.hpp:41-45 | no two data of any nodes share an id |
| Layout.Iterate | include/wujihandcpp/device/data_operator.hpp:29-40 | the recursion and its loops visit exactly the ids of the specification, in order |
| Layout.IterateVisitsOnce | include/wujihandcpp/device/data_operator.hpp:29-40 | iterate visits each id of the datum exactly once, in increasing order, and no other id |
| Devices.InitDatas | include/wujihandcpp/device/data_operator.hpp:210-239 | a node's own data are described and mapped in declaration order |
| Devices.InitStorageInfo | include/wujihandcpp/device/data_operator.hpp:247-269 | the recursion over any tree makes exactly the calls of the specification, children after the node's own data |
| Devices.MaskOfBits | include/wujihandcpp/device/data_operator.hpp:223-226 | in a sum of distinct powers of two exactly those bits are found set |
| Devices.EveryMask | include/wujihandcpp/device/data_operator.hpp:223-226 | every mask of n bits is such a sum |
| Devices.CallsCoverIds | include/wujihandcpp/device/data_operator.hpp:263-269 | these calls name the tree's ids, each once and in order |
| Devices.CallFor | include/wujihandcpp/device/data_operator.hpp:218-228 | the unit a path of sub calls addresses is given exactly that datum's description |
| Devices.InfoStands | src/protocol/handler.cpp:50-51 | with distinct ids no later call disturbs a unit's description |
| Devices.LastCallWins | src/protocol/handler.cpp:52-53 | under one key the map keeps the last unit initialised with it |
| Devices.OnlyCalledKeys | src/protocol/handler.cpp:52-53 | the map holds no key that no call gave it |
| HandDevice.HandIds | include/wujihandcpp/device/hand.hpp:251-257 | a hand of any fingers and joints has 12 + 14 units per joint, the product 292 |
| HandDevice.JointUnit | include/wujihandcpp/data/joint.hpp:43-79 | each joint datum's id, wire key and policy in closed form, masked exactly by bit f * joints + j |
| HandDevice.JointTold | include/wujihandcpp/data/joint.hpp:43-79 | spelled out datum by datum: the two limits' sub-indices traded and the positions reversed exactly on the first joint of every finger but the thumb, datum 9 a control word, data 10 to 13 positions |
| HandDevice.MaskedData | include/wujihandcpp/device/data_operator.hpp:223-226 | with the mask of any set of joint numbers the masked data are exactly those of these joints, none of the hand's own |
| HandDevice.HandUnit | include/wujihandcpp/data/hand.hpp:17-32 | each hand datum keeps its declared key, and the mask never reaches it |
| HandDevice.HandAddresses | include/wujihandcpp/device/hand.hpp:240-257 | a hand has no other data |
| Dispatch.KeyLocates | src/protocol/handler.cpp:50-54 | the key a unit was given determines its finger, joint and datum, RPdoId's determining TPdoId |
| Dispatch.DispatchInvertsAddressing | src/protocol/handler.cpp:431-438 | for up to six fingers and eight joints, on every wire key: the lookup finds a unit exactly when the key belongs to a datum, and then that datum's unit |
| Dispatch.AddressingRoundTrip | src/protocol/handler.cpp:431-438 | from any unit to its key and back is the same unit, except from RPdoId to TPdoId |
| Dispatch.NothingReachesRPdoId | include/wujihandcpp/data/hand.hpp:27-28 | no key leads to RPdoId's unit |
| Dispatch.NewHandler | include/wujihandcpp/device/hand.hpp:92-97 | the constructed handler has every unit idle and described as its datum, and the index map of the calls |
| Dispatch.MaskedUnits | include/wujihandcpp/device/hand.hpp:85-90 | on an initialised hand the masked units are exactly those of the joints whose numbers make up the mask |
| Dispatch.DefaultMask | include/wujihandcpp/device/hand.hpp:85-90 | the default mask 0 masks no unit |
| Dispatch.OneJointMasked | include/wujihandcpp/device/data_operator.hpp:223-226 | the mask of one joint's bit masks that joint's units and no others |
| Dispatch.HandOwns | include/wujihandcpp/device/hand.hpp:240-257 | on an initialised hand every unmasked datum but RPdoId owns its key as the end-to-end theorems require, and no other unit has it, except that RPdoId has TPdoId's |
| Dispatch.NeverReachedNeverSucceeds | src/protocol/handler.cpp:374-424 | a unit no key leads to is never told success, on any run |
| Dispatch.RPdoIdNeverSucceeds | include/wujihandcpp/data/hand.hpp:27-28 | on no run of an initialised hand is a checked write of RPdoId told success |
| Dispatch.RPdoIdTimesOut | include/wujihandcpp/data/hand.hpp:27-28 | an armed one ends with failure at the first tick at or after its deadline |
| Positions.RawRoundTrip | src/protocol/handler.cpp:235-244 | every 32-bit position survives extraction and conversion back, each double operation being off by up to 2^-53 |
| Positions.NegatedRoundTrip | src/protocol/handler.cpp:211-229 | through the negated angle it comes back negated, the lowest clamped to the highest |
| Positions.Quantised | src/protocol/handler.cpp:235-244 | an angle in range comes back within half a step and a rounding term of ten units of a turn |
| Positions.Saturates | src/protocol/handler.cpp:236-239 | angles from a whole turn on give the highest position, those from a turn and a step below the lowest |
| Positions.StoreLoad | src/protocol/handler.cpp:206-233 | storing what was loaded never overflows and restores the word exactly unless it is a control word other than 1 and 5, or the lowest word of a reversed position |
| Positions.LoadStore | src/protocol/handler.cpp:206-233 | loading what was stored gives flags and plain values back and angles, reversed or not, to within half a step and a rounding term; a set flag is stored as 1, a cleared one as 5 |
| Positions.StoreOverflows | src/protocol/handler.cpp:211-215 | store_data overflows exactly on a reversed position whose scaled angle is at or below half a unit above the lowest |
| Positions.LowAngleOverflows | src/protocol/handler.cpp:211-215 | every angle from a turn and a step below on does so |

## Left out

- libusb, device selection, kernel drivers and the setup and teardown of `Driver`: foreign calls. A submitted
  transfer completes once and submission succeeds; a failed one ends the process.
- The C++ memory orders, alignment, `launder` and object lifetime: steps are sequentially consistent.
- Real threads, sleeping, the 199 Hz pacing and stop tokens: a tick happens at any time `now`.
- The checksum's contents: the code reserves two bytes for it and computes none.
- The realtime controller loop, its PDO requests and filters: short numeric loops.
- The joint sequences of `Hand` (save, disable, revert, attach, detach): fixed series of the bulk calls modelled here.
- Firmware version comparison and printing, logging, singletons, examples: plumbing.
- `RingBuffer::back` and `wait_data`: nothing in the repository calls them.
- Thread checks of the entry points: the rule they enforce is that one user thread calls at a time, as here.
- StorageUnits.WriteAsync: takes the stored word; the conversion from the user's value is `Positions.StoreData`.
- StorageUnits.OnReply: values are integers of their declared width, so bytes of `Buffer8` beyond it do not exist.
- Handlers.Handler.TickPass: an exception that leaves the tick thread ends the process, which is not modelled.
- TransmitBuffers.AsyncTransmitBuffer.TryFetchBuffer: for more than 502 bytes, which no caller asks for, the loop submits every free transfer and ends only if it outruns the completions.
- TransmitBuffers.AsyncTransmitBuffer.AppendRecord: ring operations are atomic there and completions come between them; their own interleaving is `SpscRing` and `TransferPool`.
- TransmitBuffers.AsyncTransmitBuffer.Drain: `rounds` stands for the one-second limit and for event errors.
- Latches.Latch.CountUp: counts are unbounded integers, so more than 2^31 operations at once are not modelled, nor is what happens to a worker whose latch is gone.
- BulkOperations.BulkWait: the loop modelled is the bulk read's; `BulkOperations.BulkCounts` covers bulk writes.
- SerialRuns.SerialRunIsCoarse: one unit, whose replies all carry its key; a run that breaks the guard may still happen to obey the law.
- Positions.Quantised: NaN, infinities and subnormal angles are not modelled.
