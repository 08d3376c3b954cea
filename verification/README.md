# Verified models of the iostreams library

The library moves bytes: between two threads through a lock-free ring, between bits and bytes, between values and
their encodings, from a slow stream through a replay buffer, and between HTTP messages and their text. This project
models those parts in Dafny and proves what callers rely on.

| module | what it models |
|---|---|
| `Bytes`, `Modular` | bytes, splicing, and the arithmetic of positions on a ring |
| `RingProtocol`, `RingSafety`, `RingProgress` | `ringbuf` as a state machine: every atomic load, copied byte and atomic store of either thread is a step of its own, and the two threads interleave freely |
| `RingQueue` | `ringbuf` used by one thread: an array and two indices, updated in place |
| `Bits`, `BitWriting`, `BitReading`, `BitPrograms`, `BitSerial` | the bit layer of `Serial` over a buffer: what each operation does to the pending byte, programs of operations, and the class with its fields |
| `Codec`, `Sinks` | the nested value codec and its three back ends for writing |
| `Deserializing`, `ShortInput` | `>>` as it is written, from every kind of source: complete input is decoded, short input leaves stale bytes and reading goes on |
| `CodecSerial` | the serializers and deserializers as they run |
| `AnyRegistry` | the registry behind `std::any` |
| `ResumableRead`, `ResumableSerial`, `ResumableValues`, `OwnRetries` | `readBytesWithBuffer`: one call, rounds of calls, the two `Serial` objects, whole values read that way, and values retried until they are read |
| `Strings`, `Ipv4`, `Uri`, `Http`, `HttpSerial` | number texts and splitting, the dotted-quad recogniser, the address splitter, and the request printer against the response parser |

The pattern is the same throughout. A function says what one operation makes of a state. Methods of a class, which
update fields, arrays and maps the way the C++ code does, are proved equal to that function. The lemmas then state
what the library promises about the function, for all inputs, runs or reachable states.

Six promises do not hold of the code everywhere, and the project says exactly where they do:

- `readBits` straight after a byte read on a byte boundary delivers that byte's bits again.
  `BitReading.BlockAgreesWithSingleBits` gives the exact condition, `BitPrograms.BlockAfterByteIsMisread` an input.
- `writeByte` in the middle of a byte, without `bitStream`, throws the pending bits away.
  `BitWriting.WriteByteAppends` gives the exact condition, `BitWriting.PendingBitDropped` an input.
- A multi-byte value written in the middle of a byte goes in front of the pending bits.
  `BitWriting.WriteBytesAppends` gives the exact condition, `BitWriting.ValueBeforePendingBit` an input.
- A `bool` read with a replay buffer set bypasses that buffer. `ResumableValues.ResumableIffNoFlags` says which types
  are read back after any attempts at other values, `OwnRetries.OwnRetriesIff` which after short attempts of their own;
  `ResumableValues.RetriedBoolIsLost` and `OwnRetries.FirstIsLost` show retries that go wrong.
- A string or an `any` is meant to be left alone when its count is cut short, but the flag the deserializers ask,
  `last_did_not_read_whole_size`, is set by no read (`Deserializing.TakeKeepsSettings`), only by a call of
  `did_not_read_whole_size`. So they go on. `ShortInput.CutCountLeavesString` says exactly when the string is left
  alone, `ShortInput.CutCountReadsText` and `ShortInput.CutCountMakesZeros` show inputs;
  `AnyRegistry.CutNameIsLookedUp`, `AnyRegistry.NothingLeftOfAny` and `AnyRegistry.CutValueIsAssigned` say exactly when
  an `any` throws, goes on or is left alone, `AnyRegistry.CutNameInBuffer` and `AnyRegistry.CutNameOnStream` show inputs.
- Once that flag has been left set, no string is read at all. `ShortInput.TextNeedsClearFlag` gives the exact condition,
  `ShortInput.StaleFlagSkipsString` and `CodecSerial.StringSkipped` show how a caller gets there.

One test title differs from the code: `tests/http_parsing_tests.cpp:50` says that `extractUri` lowers the host by
default, while the header's default and the test's body keep it. The model follows the code
(`Uri.HostCase`, `Uri.CapitalsKept`).

## Model

| member | source | states |
|---|---|---|
| RingProtocol.SegmentsAreModular | include/iostreams/ring_streambuf.hpp:123-129 | The two memcpy segments of a transfer touch exactly the cells of the next `chunk` running totals modulo N |
| RingProtocol.StepKeepsInv | include/iostreams/ring_streambuf.hpp:102-170 | Every single step of either thread keeps the invariant: head and tail are the published and consumed totals modulo N, the published unread bytes stand in their cells, and what each thread has copied so far is what it should be |
| RingSafety.ReachableInv | include/iostreams/ring_streambuf.hpp:102-170 | The invariant holds in every state that any interleaving reaches, from any initial memory |
| RingSafety.ConsumedThenUnreadIsPublished | include/iostreams/ring_streambuf.hpp:102-170 | In every reachable state, also inside the copies, consumed bytes followed by the unread bytes of the ring are the published bytes: none lost, duplicated, torn or reordered; with both sides idle delivered ++ unread is accepted |
| RingSafety.CellsBeingFilledAreFree | include/iostreams/ring_streambuf.hpp:123-131 | The cells of an in-flight write differ from all cells of published unread bytes and from all cells an in-flight read copies out |
| RingSafety.SnapshotsAreLowerBounds | include/iostreams/ring_streambuf.hpp:88-100 | A snapshot of free or used cells stays a lower bound on the true value until its own thread publishes, and free + used is N - 1 |
| RingSafety.FreeAndUsedNow | include/iostreams/ring_streambuf.hpp:88-100 | The modular formulas of available_read and available_write compute published minus consumed, and what that leaves of N - 1 |
| RingSafety.ThreadsInACallCanStep | include/iostreams/ring_streambuf.hpp:102-170 | A thread inside a call always has a step: no state is stuck, and every step finds its indices in bounds |
| RingSafety.ThreadsAreFree | include/iostreams/ring_streambuf.hpp:102-170 | Neither thread waits for the other: an idle thread can be called, and every byte of a straight copy can come next, wherever the other thread stands |
| RingSafety.DeliveredIsPrefixOfGiven | include/iostreams/ring_streambuf.hpp:102-170 | After any run in blocking mode the delivered bytes are a prefix of all bytes handed to the producer, in order, and finished writes took all of theirs |
| RingSafety.DeliveredIsMadeOfPrefixes | include/iostreams/ring_streambuf.hpp:102-170 | After any run in either mode the published bytes are one prefix of each source handed over, in the order of the calls, and the delivered bytes are a prefix of those |
| RingProgress.NonBlockingWriteEnds | include/iostreams/ring_streambuf.hpp:105-134 | A non-blocking write of n bytes takes at most 5n + 306 own steps and n + 101 loop iterations, whatever the reader does or does not do, and works on its own source throughout |
| RingProgress.NonBlockingReadEnds | include/iostreams/ring_streambuf.hpp:140-169 | A non-blocking read of n bytes takes at most 5n + 3000006 own steps and n + 1000001 loop iterations |
| RingProgress.ShortWriteOnlyWhenFull | include/iostreams/ring_streambuf.hpp:108-121 | A write returns short only in non-blocking mode, at a moment when the ring is full, after having written something or spun to its limit; it reports exactly the bytes written |
| RingProgress.ShortReadOnlyWhenEmpty | include/iostreams/ring_streambuf.hpp:143-156 | A read returns short only in non-blocking mode, having observed an empty ring, after having read something or spun to its limit |
| RingProgress.EmptyLookEndsRead | include/iostreams/ring_streambuf.hpp:143-156 | Finding the ring empty ends a read if and only if the mode is non-blocking and something has been read or this was look number 1000002 of a read that has got nothing |
| RingProgress.FullLookEndsWrite | include/iostreams/ring_streambuf.hpp:108-121 | Finding the ring full ends a write if and only if the mode is non-blocking and something has been written or this was look number 102 of a write that has placed nothing |
| RingProgress.EmptyHandedAfterAllLooks | include/iostreams/ring_streambuf.hpp:104-169 | A call that was asked for something and returns with nothing is non-blocking and has looked exactly 1000002 times, or 102 times for a write |
| RingProgress.LookTakesAll | include/iostreams/ring_streambuf.hpp:123-158 | A look that finds room or data leads to a transfer of all of it, as far as the call still needs it |
| RingProgress.OneSideCanTransfer | include/iostreams/ring_streambuf.hpp:106-121 | With N >= 2 and as many bytes asked for as sent, writer and reader are never both stuck while anything is outstanding |
| RingProgress.FairRoundTransfers | include/iostreams/ring_streambuf.hpp:106-168 | In every round in which each thread moves N + 4 times or returns from its call, the outstanding work falls |
| RingProgress.FairSchedulesFinish | include/iostreams/ring_streambuf.hpp:102-170 | From any matched state, every fair schedule ends both calls with everything accepted delivered, in as many rounds as bytes outstanding plus one |
| RingProgress.MatchedCallsDeliver | include/iostreams/ring_streambuf.hpp:102-170 | A blocking write and a blocking read of n bytes on a fresh ring both return and deliver exactly the bytes written, within 2n + 1 fair rounds |
| RingQueue.TwoSegmentsGoAround | include/iostreams/ring_streambuf.hpp:125-129 | Copying up to the end of the array and then from its start is one copy around the ring |
| RingQueue.CopyAroundIsModular | include/iostreams/ring_streambuf.hpp:125-129 | That copy puts byte i in cell (at + i) mod N and leaves all other cells alone |
| RingQueue.EnqueueAround | include/iostreams/ring_streambuf.hpp:123-131 | Copying at the head and moving it appends the bytes to the queue read off between tail and head |
| RingQueue.DequeueAround | include/iostreams/ring_streambuf.hpp:158-166 | Moving the tail takes the first bytes off that queue |
| RingQueue.QueueInTwoRuns | include/iostreams/ring_streambuf.hpp:160-164 | The first bytes of the queue are the two straight runs the reader copies |
| RingQueue.RingBuffer.constructor | include/iostreams/ring_streambuf.hpp:31-48 | The ring starts empty; its size is what sixteen bytes of header leave, and at least 1 |
| RingQueue.RingBuffer.AvailableRead | include/iostreams/ring_streambuf.hpp:88-93 | The number of bytes in the queue |
| RingQueue.RingBuffer.AvailableWrite | include/iostreams/ring_streambuf.hpp:95-100 | Together with the bytes in the queue it makes N - 1 |
| RingQueue.RingBuffer.Transfer | include/iostreams/ring_streambuf.hpp:123-131 | One pass of the write loop appends exactly its chunk to the queue |
| RingQueue.RingBuffer.WriteInternal | include/iostreams/ring_streambuf.hpp:102-135 | Alone on the ring, a write takes min(n, free) bytes and appends exactly those |
| RingQueue.RingBuffer.Receive | include/iostreams/ring_streambuf.hpp:158-166 | One pass of the read loop moves the queue's first bytes to their place in the destination |
| RingQueue.RingBuffer.ReadInternal | include/iostreams/ring_streambuf.hpp:137-170 | Alone on the ring, a read delivers the queue's first min(n, used) bytes, removes them, and leaves the rest of the destination as it was |
| Bits.BitIsDigit | include/iostreams/Serial.hpp:175 | Bit k of a byte is the digit of weight 2^k of its number |
| Bits.OrBitAdds | include/iostreams/Serial.hpp:180 | Setting a clear bit k adds the bit times 2^k |
| Bits.ByteNumberIs | include/iostreams/Serial.hpp:165-185 | The number put together from a byte's bits is the byte's value |
| Bits.NumberByteIs | include/iostreams/Serial.hpp:165-185 | The byte put together from a number's bits has that value |
| Bits.StreamAt | include/iostreams/Serial.hpp:165-185 | Bit k of byte i comes at place 8i + k of the bits of a buffer |
| BitWriting.WriteBitAppends | include/iostreams/Serial.hpp:178-185 | writeBit appends its bit to everything written if and only if it does not complete a byte the buffer has no room for; zeros stay above the pending bits either way |
| BitWriting.WriteBitNumber | include/iostreams/Serial.hpp:178-185 | The pending byte grows by the bit times 2^offset; with its eighth bit it goes to the next place of the buffer, nothing else changing there, and nowhere when there is none |
| BitWriting.WriteEachAppends | include/iostreams/Serial.hpp:178-185 | A run of writeBit calls appends exactly its bits, given room |
| BitWriting.WriteByteIsEightBits | include/iostreams/Serial.hpp:439-453 | In a bit stream writeByte reaches the same buffer, index, pending byte and offset as eight writeBit calls, from every offset, also when the buffer is full |
| BitWriting.WriteByteAppends | include/iostreams/Serial.hpp:439-453 | writeByte appends its eight bits if and only if the Serial is a bit stream or nothing is pending |
| BitWriting.WriteByteWhole | include/iostreams/Serial.hpp:449-452 | A byte on a boundary or without bitStream takes the next place of the buffer if there is one, and nothing is pending afterwards either way |
| BitWriting.PendingBitDropped | include/iostreams/Serial.hpp:439-452 | Such a failing input: one bit, then a byte, from a fresh Serial without bitStream leaves the byte alone |
| BitWriting.WriteBytesAppends | include/iostreams/Serial.hpp:350-358 | With room, a multi-byte value is appended if and only if it reads the same before and after the pending bits, as it does where none are pending |
| BitWriting.ValueBeforePendingBit | include/iostreams/Serial.hpp:350-358 | A true bit, then an even integer: the integer's bits come first |
| BitWriting.BytesThatDoNotFit | include/iostreams/Serial.hpp:352-357 | What does not fit the buffer changes nothing |
| BitWriting.SynchronizePads | include/iostreams/Serial.hpp:454-460 | synchronize leaves whole bytes: everything written, then zeros up to the next boundary |
| BitWriting.SynchronizeFull | include/iostreams/Serial.hpp:456-460 | With no place left, synchronize drops the pending bits |
| BitReading.ReadBitDelivers | include/iostreams/Serial.hpp:165-176 | readBit delivers the next remaining bit and leaves the others |
| BitReading.ReadEachDelivers | include/iostreams/Serial.hpp:165-176 | n readBit calls deliver the next n remaining bits |
| BitReading.ReadByteDelivers | include/iostreams/Serial.hpp:423-438 | In a bit stream readByte delivers the next eight remaining bits from every offset |
| BitReading.ReadBytesDelivers | include/iostreams/Serial.hpp:251-260 | Multi-byte values deliver the next bytes at byte boundaries |
| BitReading.ReadBitIsDigit | include/iostreams/Serial.hpp:165-176 | The bit is a digit of the current byte or the lowest of the next one, and past the end the lowest of the old one again; where the reader stands afterwards |
| BitReading.ReadByteWhole | include/iostreams/Serial.hpp:435-437 | A byte on a boundary or without bitStream is the next one whole, and past the end the old one again |
| BitReading.BytesThatAreNotThere | include/iostreams/Serial.hpp:253-259 | Of a value the buffer does not hold whole nothing is read |
| BitReading.BlockIsSingleBits | include/iostreams/Serial.hpp:380-398 | From every offset but 0, readBits of n bits gives the bits and the final state of n readBit calls, also when the buffer runs out on the way |
| BitReading.BlockAtZero | include/iostreams/Serial.hpp:386-396 | From offset 0 up to eight bits are those of the byte already delivered, and no input is read |
| BitReading.BlockAgreesWithSingleBits | include/iostreams/Serial.hpp:380-398 | readBits agrees with single bits if and only if the offset is not 0, nothing is asked, or the input ends within the block and only repeats the current byte |
| BitPrograms.WriteAllAppends | include/iostreams/Serial.hpp:178-185 | Every well-formed program of bit, byte, block and multi-byte writes appends exactly its bits |
| BitPrograms.AnyGroupingDelivers | include/iostreams/Serial.hpp:380-438 | However reads are grouped into bits, bytes, blocks and multi-byte values, they deliver the same overall bits in order |
| BitPrograms.ProgramRoundTrip | include/iostreams/Serial.hpp:379-465 | Any well-formed program of writes followed by synchronize is read back item by item by the matching reads |
| BitPrograms.ProgramStored | include/iostreams/Serial.hpp:379-465 | After synchronize the buffer holds all bits of the program from where writing began |
| BitPrograms.BlockAfterByteIsMisread | include/iostreams/Serial.hpp:388-391 | A byte then a block, read back, gives the byte's own bit instead of the block's: blocks must not follow an aligned byte |
| BitPrograms.WellFormedIff | include/iostreams/Serial.hpp:386-391 | The programs the round trip is about are exactly those in which multi-byte values stand on byte boundaries and no block of bits follows a byte that was read on one |
| BitSerial.Serial.constructor | include/iostreams/Serial.hpp:95-100 | Nothing pending, nothing written, and the reader's offset at 8 |
| BitSerial.Serial.WriteBytes | include/iostreams/Serial.hpp:350-358 | The bytes go to the buffer whole or not at all |
| BitSerial.Serial.WriteByte | include/iostreams/Serial.hpp:439-452 | The state writeByte leads to, with its mutual calls to writeBit, from an offset of 0 to 8 |
| BitSerial.Serial.WriteBit | include/iostreams/Serial.hpp:178-185 | The state writeBit leads to, with the flush at the eighth bit |
| BitSerial.Serial.FillPending | include/iostreams/Serial.hpp:411-414 | The inner loop collects the bits that fit the pending byte; with the flush they amount to as many single bits |
| BitSerial.Serial.WriteBits | include/iostreams/Serial.hpp:400-422 | A block of bits leads to exactly the state of as many writeBit calls of the container's first bits; without bitStream it is an error and nothing changes |
| BitSerial.Serial.Synchronize | include/iostreams/Serial.hpp:454-460 | The pending byte is flushed once, nothing else changes |
| BitSerial.Serial.ReadBit | include/iostreams/Serial.hpp:165-176 | The bit and the state of one single-bit read |
| BitSerial.Serial.ReadByte | include/iostreams/Serial.hpp:423-438 | The byte and the state of one byte read, assembled from eight bits when in the middle of a byte |
| BitSerial.Serial.ReadBits | include/iostreams/Serial.hpp:380-398 | The block is put at the given index and nothing else of the container changes; without bitStream it is an error and nothing changes |
| Codec.CountRoundTrip | include/iostreams/Serial.hpp:671-681 | A count survives as its eight bytes, for every size_t |
| Codec.CountDigits | include/iostreams/Serial.hpp:671 | Byte k of a count is its digit of weight 256^k |
| Codec.Layout | include/iostreams/Serial.hpp:668-775 | A bool is the byte one or zero; text and containers stand behind a count of eight bytes, least significant first |
| Codec.LayoutOfParts | include/iostreams/Serial.hpp:672-673 | Elements follow one another in iteration order, each key in front of its value |
| Codec.RoundTrip | include/iostreams/Serial.hpp:668-784 | For every nested type and value, decoding its encoding followed by anything gives the value and leaves exactly what followed |
| Codec.PrefixFree | include/iostreams/Serial.hpp:668-784 | Encodings of one type are prefix-free, and equal ones mean equal values |
| Codec.ConcatenationRoundTrip | include/iostreams/Serial.hpp:187-243 | A concatenation of values of any types decodes to exactly these values |
| Codec.MapRoundTripInAnyOrder | include/iostreams/Serial.hpp:668-714 | Whatever order a map is walked in, its encoding decodes to the map |
| Codec.SetRoundTripInAnyOrder | include/iostreams/Serial.hpp:716-760 | Whatever order a set is walked in, its encoding decodes to the set |
| Codec.AnyOrderAssigns | include/iostreams/Serial.hpp:682-688 | Assigning the entries of a map in any order rebuilds the map |
| Sinks.WritesMakeEncoding | include/iostreams/Serial.hpp:668-775 | The writeBytes calls a value makes, put together, are its encoding |
| Sinks.CounterCounts | include/iostreams/Serial.hpp:344-349 | Counting any writes ends at their total size |
| Sinks.BufferKeepsFitting | include/iostreams/Serial.hpp:350-358 | A buffer ends with exactly the writes that fitted when made, each whole, one after the other; its index never passes its size and the rest of it is untouched |
| Sinks.NothingDroppedIffRoom | include/iostreams/Serial.hpp:350-358 | Nothing is dropped if and only if the buffer has room for all writes together |
| Sinks.TextInTightBuffer | src/Serial.cpp:19-25 | A string is two writes: a tight buffer takes its count, its text, both or neither, each if it fits when made |
| Sinks.TwoPassSizing | include/iostreams/Serial.hpp:342-358 | A counting pass followed by a pass into a buffer of that size stores the whole encoding, which decodes to the value |
| CodecSerial.Serial.WriteBytes | include/iostreams/Serial.hpp:342-378 | The effect of one write on each back end |
| CodecSerial.Serial.Serialize | include/iostreams/Serial.hpp:187-212 | `<<` makes exactly the writes of the value, on every back end |
| CodecSerial.Serial.SerializeSequence | include/iostreams/Serial.hpp:762-769 | The count, then every element in iteration order |
| CodecSerial.Serial.SerializeMap | include/iostreams/Serial.hpp:668-675 | The count, then every key and value in iteration order |
| CodecSerial.Serial.constructor | include/iostreams/Serial.hpp:86-122 | All indices at zero, the flag clear, for each back end |
| CodecSerial.Serial.ReadBytes | include/iostreams/Serial.hpp:244-288 | For every input: counting leaves the destination alone, a buffer gives all bytes or none and then stays where it is, a stream gives what it has and the rest of the destination stays; the count returned, and the mismatch flag set by a short stream read alone |
| CodecSerial.Serial.DidNotReadWholeSize | include/iostreams/Serial.hpp:610-615 | The mismatch flag is handed out, kept for `last_did_not_read_whole_size` and cleared |
| CodecSerial.Serial.ClearRead | include/iostreams/Serial.hpp:644-652 | The stream goes on with what has arrived, and both flags are clear |
| CodecSerial.StringSkipped | src/Serial.cpp:7-10 | A run of the class: a short read, a call that asks about it, the stream cleared by its owner, and a complete string is then not read |
| CodecSerial.Serial.ReadByte | include/iostreams/Serial.hpp:435-437 | The byte last read stays when there is none to read |
| CodecSerial.Serial.DeserializeString | src/Serial.cpp:5-17 | The count starts as the string's own size, a set flag ends the call after it, and what the input lacks stays as resize left it |
| CodecSerial.Serial.DeserializeInto | include/iostreams/Serial.hpp:213-243 | For every input, complete or short, the target and the reader end as `Deserializing.Take` says |
| CodecSerial.Serial.DeserializeVector | include/iostreams/Serial.hpp:771-784 | As many elements as the count says are appended, stale ones included |
| CodecSerial.Serial.DeserializeMap | include/iostreams/Serial.hpp:677-690 | As many pairs as the count says override the target by key, stale ones included |
| CodecSerial.Serial.DeserializeSet | include/iostreams/Serial.hpp:725-737 | As many elements as the count says are added to the target, stale ones included |
| Deserializing.FillDelivers | include/iostreams/Serial.hpp:244-341 | From every source a read gets the front of what is in view; with too little there a buffer gives nothing and a stream all it has |
| Deserializing.CountingRead | include/iostreams/Serial.hpp:246-250 | Counting a read adds its size and touches nothing else |
| Deserializing.MismatchAfter | include/iostreams/Serial.hpp:286-341 | The flag of short reads is set by a stream that has too little, never by a buffer, and cleared by a read the replay buffer serves alone |
| Deserializing.AskedTwice | include/iostreams/Serial.hpp:610-620 | Asking hands out the flag of the short reads since the last time; asking again clears it |
| Deserializing.TakeKeepsSettings | include/iostreams/Serial.hpp:213-243 | No read of any value, complete or short, changes the flag that `last_did_not_read_whole_size` reports |
| Deserializing.TakeIsDecode | include/iostreams/Serial.hpp:213-243 | With a complete encoding in view, every value ends as decoded, merged into its target (vectors appended, maps overridden by key, sets united), and what follows stays in view; from a replay buffer too for types without a bool |
| Deserializing.TakeOfEncoded | include/iostreams/Serial.hpp:668-784 | Every value written is read back into any target, from every source |
| ShortInput.DecodeExtends | include/iostreams/Serial.hpp:213-243 | More input never changes what was decoded; it only stays behind it |
| ShortInput.MissingBytesFilledIn | include/iostreams/Serial.hpp:668-784 | Without a bool inside, a value taken off a stream that ends too early into a variable just declared is the one decoded from the same bytes with others after them, and nothing is left over; those others are zeros and what scalars just declared happen to hold |
| ShortInput.MissingBytesReadAsZeros | include/iostreams/Serial.hpp:668-784 | So where scalars just declared hold zeros, a stream that ends too early reads as if zeros followed |
| ShortInput.CutCountLeavesString | src/Serial.cpp:5-17 | A string whose count is cut short is left alone if and only if the flag is set, the source counts, a buffer has fewer bytes than the string or the very same, or a stream ends with the first bytes of the string's own count |
| ShortInput.CutCountLeavesContainer | include/iostreams/Serial.hpp:677-784 | A container whose count is cut short in a buffer is left as it was, and so is the buffer |
| ShortInput.VectorGrowsByCount | include/iostreams/Serial.hpp:771-784 | From every source a vector keeps its elements and grows by exactly as many as the count read says, stale ones included |
| ShortInput.CutTextKeepsOld | src/Serial.cpp:11-15 | A string whose text is cut short has its new size: what a stream has in front, a buffer nothing, then the old characters as far as there are any, then zeros |
| ShortInput.MissingBoolRepeats | include/iostreams/Serial.hpp:423-438 | A bool that is missing repeats the last byte read as one |
| ShortInput.TextNeedsClearFlag | src/Serial.cpp:9-10 | A string is read from its complete encoding if and only if the flag is clear, or string and target are both empty |
| ShortInput.CutCountReadsText | src/Serial.cpp:7-15 | From a buffer too short for a count, the string keeps its size, and as many of the bytes left become its text, or it stays as it was |
| ShortInput.CutCountMakesZeros | src/Serial.cpp:7-15 | A stream that ends with the one byte five makes five zero bytes of an empty string |
| ShortInput.StaleFlagSkipsString | include/iostreams/Serial.hpp:610-620 | After a short stream read, `did_not_read_whole_size` and a stream cleared by its owner, a complete string is not read, only its count |
| AnyRegistry.NamesNeverRebound | src/Serial.cpp:48-62 | After any history of registrations a bound name keeps its type, whatever is registered later |
| AnyRegistry.CurrentInForce | src/Serial.cpp:54-61 | The serializer, deserializer and name of a type come from one and the same registration, the last one taken for it, and the name leads back to the type |
| AnyRegistry.SerializableHasCurrent | src/Serial.cpp:58-60 | Every type in any of the maps has such a registration |
| AnyRegistry.NeverNoDeserializer | src/Serial.cpp:104-106 | The error for a name without a deserializer cannot happen after any history |
| AnyRegistry.NameSelectsSameType | src/Serial.cpp:63-108 | Bytes written under an old name reach the current deserializer of the same type, right at the old payload, however many registrations came between |
| AnyRegistry.RegisteredRoundTrip | src/Serial.cpp:63-108 | A registered any round-trips from any buffer or stream, whatever the target held, and leaves exactly what came after it |
| AnyRegistry.OldNameRoundTrip | src/Serial.cpp:63-108 | So does one written under a name since replaced, if the new deserializer still understands the old serializer |
| AnyRegistry.UnknownNameThrows | src/Serial.cpp:100-102 | A whole name throws if and only if no registration of the history has it |
| AnyRegistry.FlaggedAnyIsLeftAlone | src/Serial.cpp:92-93 | With the flag set an any is left alone whatever the input holds, and only its first byte is read |
| AnyRegistry.PlainRegistrationInverts | src/Serial.cpp:127-178 | The built-in registrations meet the condition of these round trips |
| AnyRegistry.UnregisteredWritesFlag | src/Serial.cpp:66-80 | An empty or unregistered any writes one false flag, and reading it leaves the target unchanged |
| AnyRegistry.CutNameIsLookedUp | src/Serial.cpp:90-107 | From every source, an any cut short in the count of its name goes on: it throws if and only if the name made of what is left is not bound, and otherwise runs that name's deserializer |
| AnyRegistry.CutNameInBuffer | src/Serial.cpp:96-102 | In a buffer that name is empty |
| AnyRegistry.CutNameOnStream | src/Serial.cpp:96-102 | On a stream that ends with one and three it is three zero bytes |
| AnyRegistry.NothingLeftOfAny | src/Serial.cpp:90-102 | With nothing left at all, the any is left alone if the flag is set or the last bool read was false, and otherwise throws unless an empty name is bound |
| AnyRegistry.CutValueIsAssigned | src/Serial.cpp:117-125 | A built-in deserializer leaves its target alone if and only if the flag is set, or the target holds what was read already |
| AnyRegistry.Registry.RegisterType | src/Serial.cpp:48-62 | The four maps stay those of the history, the new call appended |
| AnyRegistry.Registry.Serialize | src/Serial.cpp:63-85 | What is written for an any under the maps of the history |
| AnyRegistry.Registry.Deserialize | src/Serial.cpp:87-108 | What is read, from where reading goes on, or which error is raised, under the maps of the history, for complete and short input and with the flag set or clear |
| ResumableRead.StepConserves | include/iostreams/Serial.hpp:312-341 | Every call keeps replay buffer ++ unread main stream, delivers the first min(size, available) bytes of unread replay ++ main while the main stream is good, and leaves the replay position just past them |
| ResumableRead.RoundIsInOneGo | include/iostreams/Serial.hpp:312-341 | A round of calls of any sizes delivers what one stream with all the bytes would, and loses nothing |
| ResumableRead.ReplayIsInOneGo | include/iostreams/Serial.hpp:312-341 | After any rounds of complete or short reads of any sizes, rewound, cleared and with more data arrived, reading gives what reading everything in one go gives, and each part extends what the same read delivered before |
| ResumableSerial.Serial.StreamRead | include/iostreams/Serial.hpp:279-287 | The bytes of a stream read; a failed stream gives none, and coming up short fails it |
| ResumableSerial.Serial.PushReadBytes | include/iostreams/Serial.hpp:549-572 | Bytes read are collected while a read buffer is pushed |
| ResumableSerial.Serial.ReadBytes | include/iostreams/Serial.hpp:278-310 | A read fills the destination from the pending offset on and collects what it read; the mismatch, end-of-file and empty flags end as the code sets them |
| ResumableSerial.Serial.ReadFromMain | include/iostreams/Serial.hpp:328-339 | The bytes read from the main stream follow the replayed ones in the destination and are appended to the replay buffer |
| ResumableSerial.Serial.ReadBytesWithBuffer | include/iostreams/Serial.hpp:312-341 | The two objects, the destination, the count and the mismatch flag end exactly as one call of the model says, from every settled state |
| ResumableValues.TakeMoves | include/iostreams/Serial.hpp:227-237 | Every attempt at a value without a bool inside, complete or short, leaves the streams as a round of `readBytesWithBuffer` calls of some sizes does |
| ResumableValues.AttemptKeepsAll | include/iostreams/Serial.hpp:312-341 | So no attempt loses a byte |
| ResumableValues.TriesAreRounds | include/iostreams/Serial.hpp:628-652 | A history of attempts, each rewound, cleared and with more data arrived, is a history of rounds |
| ResumableValues.RetriedValueIsRead | include/iostreams/Serial.hpp:628-642 | After any attempts at values without a bool inside, complete or short, a value whose encoding has arrived is read whole into any target, and what follows stays |
| ResumableValues.ResumableIffNoFlags | include/iostreams/Serial.hpp:213-226 | Exactly the types without a bool anywhere inside are read back after every such history of attempts |
| ResumableValues.FlagNotReplayed | include/iostreams/Serial.hpp:216-226 | A sample with a bool is misread from a replay buffer that holds all of it |
| ResumableValues.RetriedBoolIsLost | include/iostreams/Serial.hpp:216-226 | A set of false and true of which one arrives late: the first attempt gives the set of false, the second the set of true, though all bytes have come |
| OwnRetries.OwnRetriesIff | include/iostreams/Serial.hpp:213-243 | Of the types whose scalars take bytes, exactly a lone bool and those without a bool are read back, from every fresh pair of streams, after any number of short attempts at the same type |
| OwnRetries.LoneBoolSurvives | include/iostreams/Serial.hpp:216-226 | A lone bool waits for its byte through every history of its own short attempts |
| OwnRetries.FirstCut | include/iostreams/Serial.hpp:213-341 | An attempt cut right after its first bool has every byte before that bool in the replay buffer, and the bool nowhere |
| OwnRetries.TakeDull | include/iostreams/Serial.hpp:213-341 | With only zeros to come and no true bool read last, no bool inside any value is read as true |
| OwnRetries.FirstIsLost | include/iostreams/Serial.hpp:213-341 | For every other type, a real value with a true bool and the one retry that loses it |
| Http.ParseOfPrint | src/http_common.cpp:7-102 | A printed request followed by anything parses to verb, path, HTTP/1.1, its headers and exact body, consuming all of the message and none of what follows |
| Http.ReceivedFields | src/http_common.cpp:34-97 | What a request is received as: path and HTTP/1.1 as status, its body, Host overridden by its own headers overridden by Content-Length, and the verb split after its first slash |
| Http.PrintIs | src/http_common.cpp:88-102 | The printed request, character by character |
| Http.LineIs | src/http_common.cpp:19-32 | A line is what stands before the first line feed, carriage returns dropped wherever they stand |
| Http.HeaderLineIs | src/http_common.cpp:60-69 | A header line goes in by its first colon with one blank behind it dropped if there is one, and without a colon changes nothing |
| Http.ParseOfResponse | src/http_common.cpp:7-85 | A response in full gives protocol up to its first slash, version, status code, status text, its headers and exactly the body that Content-Length says, and nothing after that is touched |
| Http.ParseOfShortLine | src/http_common.cpp:37-51 | A status line with no space changes nothing, with one space only protocol and version, and parsing ends right after it |
| Http.BodyByLength | src/http_common.cpp:73-82 | No body without a Content-Length or with an empty one, an error for a text that is no number or too big a one, and otherwise as many bytes as it says, zeros for missing ones |
| Http.HeadersParse | src/http_common.cpp:54-71 | The header loop takes back exactly the printed lines, later ones winning, and stops after the empty one |
| Http.PipelinedMessages | src/http_common.cpp:7-102 | Any number of printed messages in a row are framed one by one, and nothing after the last is touched |
| HttpSerial.Serial.SerializeRequest | src/http_common.cpp:88-102 | The printed request is appended to the output |
| HttpSerial.Serial.ReadLine | src/http_common.cpp:19-32 | The text up to the line feed without carriage returns, the input standing right after it |
| HttpSerial.Serial.ReadHeaders | src/http_common.cpp:54-71 | The header loop's map, the input standing after the empty line |
| HttpSerial.Serial.ReadBody | src/http_common.cpp:76-80 | As many bytes as there are, zeros for the missing ones |
| HttpSerial.Serial.DeserializeBody | src/http_common.cpp:73-82 | The body by its Content-Length, the two ways that can fail, and where the input is left |
| HttpSerial.Serial.DeserializeResponse | src/http_common.cpp:7-85 | The response parsed, with every early exit, and where the input is left |
| Strings.LowerIs | src/http_client.cpp:29-30 | Each capital becomes the small letter at its place of the alphabet, nothing else changes |
| Strings.NumberFirst | src/http_client.cpp:68 | The first digit of a number has the weight of all digits behind it |
| Strings.DecimalIsShort | src/http_common.cpp:97 | A printed number has no leading zeros |
| Strings.PrintedIs | src/http_common.cpp:97 | A printed number is its digits, behind a minus sign when negative |
| Strings.ParseIs | src/http_common.cpp:76 | stoi and stoll read blanks, at most one sign and digits, whatever comes after them; without digits there is no number, and outside the range an error |
| Strings.ParseOfPrinted | src/http_client.cpp:67-68 | A printed number is parsed back by stoi and stoll |
| Strings.SplitOfJoin | src/string_is_ipv4.cpp:21-26 | Pieces without the separator survive being joined and split |
| Strings.SplitHasNoSeparators | src/string_is_ipv4.cpp:11-29 | Splitting leaves no separator in a piece, and joining the pieces gives the text back |
| Ipv4.QuadBySplitting | src/string_is_ipv4.cpp:11-42 | A text is four dot-separated octets if and only if its pieces between dots are four octets |
| Ipv4.StringIsIpv4 | src/string_is_ipv4.cpp:3-43 | True exactly for four dot-separated runs of one to three digits of value at most 255; the segment index stays in bounds |
| Uri.OneShape | src/http_client.cpp:18-70 | A text is put together in one way only from scheme, slashes, host, port and path |
| Uri.ExtractOf | src/http_client.cpp:7-78 | The components extracted are those of that one way |
| Uri.Pieces | src/http_client.cpp:39-70 | The searches for the delimiters find exactly those components |
| Uri.ExtractUri | src/http_client.cpp:7-78 | The result or error the address means, for every text and both settings of lowercaseHost |
| Uri.AddressMeans | src/http_client.cpp:28-75 | What an address means by its pieces, with or without `//`: an empty or missing port is 443 for https and 80 for http, any other is read as a 32-bit integer or is the error |
| Uri.DefaultPort | src/http_client.cpp:58-69 | Scheme, host and path without a port, and with a colon but no port, extract to exactly these components and port 443 or 80 |
| Uri.SchemeIsRejected | src/http_client.cpp:23-35 | The scheme is rejected if and only if there is no colon or what stands before the first is, in lower case, neither http nor https |
| Uri.HostCase | src/http_client.cpp:71-75 | The host comes out as it stands in the text if and only if it is not to be lowered or is in lower case already |
| Uri.CapitalsKept | include/iostreams/http_client.hpp:12 | A host in capitals is kept with the header's default |
| Uri.PrintThenExtract | src/http_client.cpp:7-78 | Every well-formed tuple survives being printed as scheme://host:port path and extracted |
| Uri.ExtractedIsWellFormed | src/http_client.cpp:7-78 | Only well-formed tuples are ever extracted |
| Uri.ExtractPrintExtract | src/http_client.cpp:7-78 | Printing what was extracted from any accepted address and extracting again gives the same five components |
| Uri.ExtractableIffWellFormed | src/http_client.cpp:7-78 | The tuples that can be extracted are exactly the well-formed ones |

## Left out

Ring buffer:

- Sizes above 2^63, where sums of two indices would wrap; indices and counts are unbounded here.
- Weaker memory orders: the library uses the default, sequentially consistent atomics, and so does the machine.
- `seekoff`, `seekpos` and the moves, which change an index the other thread owns or copy pointers.
- RingQueue.RingBuffer.WriteInternal: in blocking mode it asks that the bytes fit, because one thread alone would wait for ever; waiting for the other thread is what the state machine is about. ReadInternal likewise.

Bit layer:

- A `Serial` over a stream with `bitStream`: `writeByte` and `writeBytes` call each other without end there.
- The offset that a resumed read leaves for `readBit` (`include/iostreams/Serial.hpp:169`): it is never set on a buffer.
- BitSerial.Serial.WriteBits: the index is not used, because the code does not use it either; the bits written are always the container's first.
- Blocks of 2^31 bits or more, where the `int` loop counters of `readBits` and `writeBits` would overflow.
- BitSerial.Serial.ReadBits: container and buffer are two separate arrays.

Codec and back ends:

- The meaning of scalars: they are opaque byte sequences of a fixed width, and counts are least significant byte first.
- ShortInput.MissingBytesReadAsZeros: only where scalars just declared hold zeros, which the code does not arrange; ShortInput.MissingBytesFilledIn has no such condition.
- ShortInput.MissingBytesFilledIn: byte i of a scalar just declared is arbitrary, but the same for each one.
- CodecSerial.Serial.ReadBytes: the end-of-file and empty flags and the stored last count are those of ResumableSerial.Serial.ReadBytes; a stream's failed state is not kept, so more bytes arrive on it together with its being cleared.
- CodecSerial.Serial.DeserializeInto: the memory that a huge stale count would ask for; the loop is as long as the count says.
- `std::filesystem::path`, which is a string on the wire, the passthrough back end, and the version macros.
- `any_cast` errors of a serializer called for a wrong type; registered functions are arbitrary functions of value, target and source.
- AnyRegistry.PlainRegistrationInverts: scalars and strings, which are all the built-in types.
- AnyRegistry.RegisteredRoundTrip: without a replay buffer, because an any starts with a bool.

Resumable reads:

- The replay buffer's write position is at its end and its stream good between calls.
- ResumableSerial.Serial.ReadBytes: how many bytes the standard library says are available after a read is a parameter.
- ResumableValues.TakeMoves: on values, as a composition of the call that ResumableSerial proves for the class.
- OwnRetries.OwnRetriesIff: a vector of bools counts as a type there, although the library has no serializer for one.

Text:

- HttpSerial.Serial.ReadLine: needs a line feed ahead, because without one the loop reads zeros for ever; the parser likewise needs a complete header block.
- HttpSerial.Serial.DeserializeBody: a negative Content-Length -n ends as an outcome of its own that holds the size 2^64 - n; for -1 the code allocates no bytes, because one more than that size wraps to zero, and reports a body of that size, and for others it asks for more memory than there is.
- Http.ParseOfPrint: fields hold none of the delimiters around them, and the body is shorter than 2^63 bytes.
- Locales: `tolower` and digits are those of the C locale.

Elsewhere:

- Sockets, TLS, name lookup, TCP, UDP and multicast streams and servers, peer to peer: system and library calls.
- `archive_stream`, which rests on libarchive; the C API and the iOS application, which are thin wrappers.
- `memory_streambuf` and `counting_streambuf`, whose single branches would only add easy members.
- `restSync` and `restAsync`: redirects and threads over a network.
