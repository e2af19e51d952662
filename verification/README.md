# A verified model of the message server's ids, wire codec and node index

The project models, in Dafny, the parts of the instant-messaging repository where the arithmetic and
the protocols are hard, and proves what they promise.

**The id generators** (`im-message/.../uid`). `BitsAllocator` packs delta seconds, worker id and
sequence into one long. `DefaultUidGenerator` takes the clock as an arbitrary sequence of readings.
`CachedUidGenerator` makes ids one second at a time, ahead of the clock, and keeps them in a
power-of-two ring. The ring exists twice: as a class used by one thread at a time (`RingBuffer`,
`CachedUidGenerator`, `CachedRuns`), and as a system of atomic steps in which any number of takers,
producers and padding threads interleave (`ConcurrentRing`, `RingProgress`, `StaleClaims`, `ConcurrentUid`,
`PaddingProgress`).

**The protobuf codec** (`load-test/google-protobuf.js`, `load-test/packet_pb.js`). From JavaScript's
32-bit operators (`Js`) up: varints and 64-bit halves, UTF-8, the encoder and decoder, the writer
that fills in lengths afterwards, the reader with its skipping of unknown fields, and the `Packet`,
`Message` and `Event` classes. Every reader is modelled on all inputs, malformed ones included, and
`ParseTermination` says on which of them it ends. Numbers are doubles (`Doubles`). Two-word
arithmetic, decimal and zigzag conversions and base64 are modelled beside it. The format is that of the
Protocol Buffers encoding guide (sections "Base 128 Varints", "Signed Integers", "Message
Structure", "Last One Wins", "Groups"), section 3 of RFC 3629, section 2 of RFC 2781, and
sections 4 and 5 of RFC 4648.

**The load index of connect nodes** (`ConnectNodeLoadServiceImpl`, `NodeWatchService`).

How the files build on one another: `Common`, `Bits` (bitwise operations defined bit by bit), `JavaLong`
and `Js` (the two machine models) are the base. `Records` describes well-formed wire data
of any kind; its main lemmas say that the reader steps over exactly one record and
that parsing a list of records is applying them one after another (`Packets`). The round trip,
unknown fields and "last one wins" all follow from that (`PacketRoundTrip`), `PacketBytes` gives the
bytes themselves, and `PacketCodec` ties
the stateful writer and reader to it.

## Where the code does less than it says

Each of these is kept as the code has it, with the exact condition under which it is right.

- `nextId`: an exhaustion exception inside the wait for the next second leaves the sequence wrapped to 0.
  If the clock then reads the old second again, ids repeat (`ReturnExample`). Ids increase if
  and only if that does not happen (`RunIncreasingIff`).
- `allocate` never checks the delta on the cached path; two deltas collide exactly modulo
  2^(timestampBits + 1) (`AllocateCollision`).
- `take` reads the cursor and advances it in two steps. A taker whose first read is out of date and
  which then finds the ring empty passes the emptiness test all the same, and two takers hand out one
  id (`SameIdTwice`). Numbers are claimed once if and only if no such update happens
  (`ClaimedOnceIff`). The comment in the source that the check is only "for safety" is about the cursor
  moving back, which indeed never happens.
  The condition is about claims: a claim made twice can also end in the flag exception
  (`StaleThrows`). Callers are safe if takers serialise their claims, or if there is only one
  (`AtomicClaimsDeliver`, `AtomicClaimsUnique`); with two or more taking freely, some interleaving of any
  ring fails (`HandsOutOnceIff`, `AllUniqueIff`).
- `parseUID` shifts by 64 minus the width, which for a field of no bits is a shift by 0 (`ParseRecovers`). The
  generators' setters let no such width through.
- The padding threshold is computed in ints. A product of buffer size and padding factor that is small,
  or that overflows, makes it 0 or negative and switches triggering off; triggered padding prevents
  rejection exactly when what is left of the product modulo 2^32 lies between 100 and 2^31
  (`SettingsStarvationIff`).
- `afterPropertiesSet` lets a negative worker id through (`AfterPropertiesSet`).
- Deserializing need not end. A skipped field whose length has six bytes or more is read as a signed
  number and can move the cursor back, as eleven bytes show (`EndlessExample`). A run ends if and only
  if it never comes back to a field header without having left the loop it met it in, and it then ends
  within a bound known beforehand (`DeserializingEndsIff`); it does end when it skips no delimited field
  of negative length (`ForwardEnds`).
- `readInt64` rounds to a double, so a 64-bit number comes back if and only if it is one (`SplitJoin`).
- `writeString` drops a high surrogate that is followed by something else than a low one
  (`RoundTripIff`).
- `getResultBuffer` does not update the total length (`GetResultBuffer`).
- `disconnect` lowers the load even if the channel has no entry for the node (`ConservedIff`).

## Model

| member | source | states |
|---|---|---|
| BitsAllocator.New | im-message/src/main/java/com/itrjp/im/message/uid/BitsAllocator.java:59-77 | for all widths from zero up: construction succeeds if and only if sign bit and widths fill 64 bits, and leaves masks 2^b - 1 and shifts that place the fields side by side |
| BitsAllocator.MaxMask | im-message/src/main/java/com/itrjp/im/message/uid/BitsAllocator.java:70-72 | complementing -1 shifted left by b gives 2^b - 1, for every b from 0 to 63 |
| BitsAllocator.AllocateValue | im-message/src/main/java/com/itrjp/im/message/uid/BitsAllocator.java:88-90 | on in-range fields the shifts and ors are the positional sum, never negative |
| BitsAllocator.AllocateWraps | im-message/src/main/java/com/itrjp/im/message/uid/BitsAllocator.java:88-90 | on every delta a long holds: the positional sum with the delta wrapped to its field and the sign bit |
| BitsAllocator.AllocateOrder | im-message/src/main/java/com/itrjp/im/message/uid/BitsAllocator.java:79-90 | ids compare as (delta, worker, sequence) compare lexicographically, both directions, so different fields give different ids |
| BitsAllocator.AllocateCollision | im-message/src/main/java/com/itrjp/im/message/uid/BitsAllocator.java:88-90 | without the range check two deltas give one id exactly when they agree modulo 2^(timestampBits + 1) |
| BitsAllocator.AllocateOffset | im-message/src/main/java/com/itrjp/im/message/uid/impl/CachedUidGenerator.java:104-116 | the first id of a second plus an offset is the id at that offset |
| BitsAllocator.ParseRecovers | im-message/src/main/java/com/itrjp/im/message/uid/impl/DefaultUidGenerator.java:118-128 | the three shifts of parseUID give back exactly the fields that allocate packed if and only if an empty worker field comes with sequence 0 and an empty sequence field with delta and worker 0, since a shift by 64 is a shift by 0; so always for positive widths |
| DefaultUidGenerator.AfterPropertiesSet | im-message/src/main/java/com/itrjp/im/message/uid/impl/DefaultUidGenerator.java:93-105 | initialisation succeeds if and only if the widths fill 63 bits and the worker id is not above its maximum; the result is usable if and only if the id is not negative either, which the source does not check |
| DefaultUidGenerator.Spin | im-message/src/main/java/com/itrjp/im/message/uid/impl/DefaultUidGenerator.java:172-194 | the busy wait ends with the first reading past the last second unless an exhausted one comes first, which leaves sequence 0 and the old second |
| DefaultUidGenerator.SpinIs | im-message/src/main/java/com/itrjp/im/message/uid/impl/DefaultUidGenerator.java:175-194 | the busy wait ends with reading number k, the least one past the last second or out of the timestamp range: with that second and sequence 0, or with the exhaustion exception; without one it reads on to the end |
| DefaultUidGenerator.NextIs | im-message/src/main/java/com/itrjp/im/message/uid/impl/DefaultUidGenerator.java:144-170 | one call by its first reading: out of range throws; before the last second refuses with exactly the difference; past it gives (reading, 0); equal with sequence left gives the next sequence; the long is the allocation of these fields |
| DefaultUidGenerator.NextWaits | im-message/src/main/java/com/itrjp/im/message/uid/impl/DefaultUidGenerator.java:155-170 | when the second is used up the least later reading past it or out of range decides the call, which consumes everything up to it |
| DefaultUidGenerator.SequenceMask | im-message/src/main/java/com/itrjp/im/message/uid/impl/DefaultUidGenerator.java:155-157 | masking the incremented sequence wraps to 0 exactly at the maximum |
| DefaultUidGenerator.Generator.NextId | im-message/src/main/java/com/itrjp/im/message/uid/impl/DefaultUidGenerator.java:144-170 | fields, reply and clock readings consumed are those of the step function Next on every state and clock, exceptions included |
| DefaultUidGenerator.Generator.GetNextSecond | im-message/src/main/java/com/itrjp/im/message/uid/impl/DefaultUidGenerator.java:175-182 | the wait loop comes out as Spin says |
| DefaultUidGenerator.Serve | im-message/src/main/java/com/itrjp/im/message/uid/impl/DefaultUidGenerator.java:144-170 | calling the object until the readings are used up hands out exactly the longs of the model run |
| DefaultUidGenerator.RunIncreasingIff | im-message/src/main/java/com/itrjp/im/message/uid/impl/DefaultUidGenerator.java:138-194 | over every run and every clock, ids are strictly increasing (and equally: distinct) if and only if the run never returns to a second whose wait was cut short by exhaustion |
| DefaultUidGenerator.SteadyClockIncreases | im-message/src/main/java/com/itrjp/im/message/uid/impl/DefaultUidGenerator.java:138-194 | so ids strictly increase on every clock that never goes back and on every clock that stays in the timestamp range, whatever its order |
| DefaultUidGenerator.RunContiguous | im-message/src/main/java/com/itrjp/im/message/uid/impl/DefaultUidGenerator.java:153-170 | on such runs an id with a positive sequence directly follows the one with the previous sequence of the same second |
| DefaultUidGenerator.RunUidsIncreasing | im-message/src/main/java/com/itrjp/im/message/uid/impl/DefaultUidGenerator.java:144-170 | the 64-bit ids themselves strictly increase on such runs |
| DefaultUidGenerator.DistinctWorkersNeverCollide | im-message/src/main/java/com/itrjp/im/message/uid/impl/DefaultUidGenerator.java:144-170 | generators with different worker ids never give out the same long, on any two runs |
| DefaultUidGenerator.ReturnExample | im-message/src/main/java/com/itrjp/im/message/uid/impl/DefaultUidGenerator.java:155-166 | a concrete clock on which an id is given out twice after an exhaustion exception inside the wait |
| RingBuffer.BitCountOne | im-message/src/main/java/com/itrjp/im/message/uid/buffer/RingBuffer.java:102-104 | bit count 1 means a power of two, so the constructor's test is exact |
| RingBuffer.RingBuffer.constructor | im-message/src/main/java/com/itrjp/im/message/uid/buffer/RingBuffer.java:100-112 | an empty ring with room for bufferSize ids and the threshold in Java's int arithmetic |
| RingBuffer.RingBuffer.InitFlags | im-message/src/main/java/com/itrjp/im/message/uid/buffer/RingBuffer.java:221-231 | every flag is CAN_PUT |
| RingBuffer.RingBuffer.CalSlotIndex | im-message/src/main/java/com/itrjp/im/message/uid/buffer/RingBuffer.java:199-204 | the mask is the sequence modulo the buffer size |
| RingBuffer.RingBuffer.Put | im-message/src/main/java/com/itrjp/im/message/uid/buffer/RingBuffer.java:124-152 | appends to the queue exactly when fewer than bufferSize - 1 ids are ahead of the cursor, else changes nothing; keeps the slot and flag invariant |
| RingBuffer.RingBuffer.ClaimNext | im-message/src/main/java/com/itrjp/im/message/uid/buffer/RingBuffer.java:164-183 | advances the cursor by one unless empty, claims the oldest id, and triggers padding exactly below the threshold |
| RingBuffer.RingBuffer.Fetch | im-message/src/main/java/com/itrjp/im/message/uid/buffer/RingBuffer.java:185-197 | returns the claimed id and hands only its slot back |
| RingBuffer.SlotUnique | im-message/src/main/java/com/itrjp/im/message/uid/buffer/RingBuffer.java:199-204 | within bufferSize consecutive sequence numbers no two share a slot |
| CachedUidGenerator.BufferPaddingExecutor.Provide | im-message/src/main/java/com/itrjp/im/message/uid/impl/CachedUidGenerator.java:98-116 | for every second, one id per sequence in order, each equal to what allocate gives |
| CachedUidGenerator.BufferPaddingExecutor.PaddingBuffer | im-message/src/main/java/com/itrjp/im/message/uid/buffer/BufferPaddingExecutor.java:153-177 | terminates; fills all room with consecutive ids from the next second on, counts the seconds spent, leaves a claimed but unread id alone; does nothing while another padding runs |
| CachedUidGenerator.IdAtNext | im-message/src/main/java/com/itrjp/im/message/uid/impl/CachedUidGenerator.java:104-116 | the stream of ids starts with sequence 0, counts through the second without a gap, and goes on with the next second |
| CachedUidGenerator.BufferSizeValue | im-message/src/main/java/com/itrjp/im/message/uid/impl/CachedUidGenerator.java:121-125 | for all widths: the int expression is the ids of 2^(boostPower mod 32) seconds when sequenceBits + boostPower mod 32 is at most 30, and not positive else |
| CachedUidGenerator.ThresholdValue | im-message/src/main/java/com/itrjp/im/message/uid/buffer/RingBuffer.java:111 | for every size and factor: the threshold is the percentage of the size, rounded down, if and only if their product is below 2^31 |
| CachedUidGenerator.ThresholdPositiveIff | im-message/src/main/java/com/itrjp/im/message/uid/buffer/RingBuffer.java:111 | the threshold computed in ints is positive if and only if the product of size and factor modulo 2^32 lies between 100 and 2^31 |
| CachedUidGenerator.CachedUidGenerator.Init | im-message/src/main/java/com/itrjp/im/message/uid/impl/CachedUidGenerator.java:118-150 | start-up throws exactly when the int size is not positive or the factor is out of range; else slot i holds second now + 1 + i / L, sequence i mod L, and 2^(boostPower mod 32) + 1 seconds are spent |
| CachedUidGenerator.CachedUidGenerator.Pad | im-message/src/main/java/com/itrjp/im/message/uid/buffer/BufferPaddingExecutor.java:143-177 | a padding from outside a take fills the ring with consecutive ids |
| CachedUidGenerator.CachedUidGenerator.AsyncPadding | im-message/src/main/java/com/itrjp/im/message/uid/buffer/BufferPaddingExecutor.java:143-177 | so does one inside a take, and the id already claimed stays as it is |
| CachedUidGenerator.CachedUidGenerator.GetUid | im-message/src/main/java/com/itrjp/im/message/uid/impl/CachedUidGenerator.java:78-86 | a take gives the oldest queued id, or is rejected exactly on the empty queue, with the triggered padding run inside it or not at all |
| CachedUidGenerator.TakenIs | im-message/src/main/java/com/itrjp/im/message/uid/impl/CachedUidGenerator.java:78-86 | the queue after a take, id by id: the head is gone, and if fewer than the threshold are left and the padding runs at once, the ids from the next second on fill the ring, one slot less once an id has been taken |
| CachedRuns.HandedIncreasing | im-message/src/main/java/com/itrjp/im/message/uid/impl/CachedUidGenerator.java:78-150 | over every run of takes and paddings, ids come out strictly later than all before although each padding drops the tail of its last second |
| CachedRuns.CachedUidsIncreasing | im-message/src/main/java/com/itrjp/im/message/uid/impl/CachedUidGenerator.java:78-150 | after start-up the longs handed out strictly increase on every run that stays in the timestamp range |
| CachedRuns.PromptNeverRejected | im-message/src/main/java/com/itrjp/im/message/uid/buffer/RingBuffer.java:164-183 | with a threshold of at least 1 and triggered paddings completing inside their take, no take is ever rejected |
| CachedRuns.RunsDry | im-message/src/main/java/com/itrjp/im/message/uid/buffer/RingBuffer.java:173-183 | with threshold 0 nothing is triggered and the ring runs dry |
| CachedRuns.StarvationIff | im-message/src/main/java/com/itrjp/im/message/uid/buffer/RingBuffer.java:100-112 | prompt padding prevents rejection on all runs if and only if the threshold is positive |
| CachedRuns.SettingsStarvationIff | im-message/src/main/java/com/itrjp/im/message/uid/buffer/RingBuffer.java:100-112 | the same in terms of buffer size and padding factor, int overflow included |
| CachedRuns.Serve | im-message/src/main/java/com/itrjp/im/message/uid/impl/CachedUidGenerator.java:78-86 | driving the object through any list of takes and paddings hands out exactly the longs of the model run |
| CachedRuns.StartAndServe | im-message/src/main/java/com/itrjp/im/message/uid/impl/CachedUidGenerator.java:78-150 | from start-up on, the longs that the object hands out strictly increase while the seconds stay in range, and with prompt padding and a positive threshold every take gets one |
| ConcurrentRing.ClaimedOnceIff | im-message/src/main/java/com/itrjp/im/message/uid/buffer/RingBuffer.java:164-183 | in every interleaving each sequence number is claimed at most once if and only if no taker updates the cursor with an out-of-date first read on an empty ring (about claims: see StaleThrows) |
| ConcurrentRing.StepSafe | im-message/src/main/java/com/itrjp/im/message/uid/buffer/RingBuffer.java:124-197 | every other atomic step of every thread keeps the ring invariant |
| ConcurrentRing.RingIsSafe | im-message/src/main/java/com/itrjp/im/message/uid/buffer/RingBuffer.java:124-197 | in every such interleaving: the id handed out for a sequence number is the one put under it, none is handed out twice, claims are 0, 1, ..., cursor in order, live numbers never share a slot, at most bufferSize - 1 puts are ahead of the cursor |
| ConcurrentRing.DeliversIff | im-message/src/main/java/com/itrjp/im/message/uid/buffer/RingBuffer.java:124-197 | an interleaving gives these guarantees if and only if no taker makes such an update |
| ConcurrentRing.AtomicClaimsDeliver | im-message/src/main/java/com/itrjp/im/message/uid/buffer/RingBuffer.java:124-197 | the same whenever takers claim without a step of another taker in between, or there is only one taker, whatever the producers do |
| ConcurrentRing.StepRefinesQueue | im-message/src/main/java/com/itrjp/im/message/uid/buffer/RingBuffer.java:124-197 | each atomic step is an enqueue, a dequeue of the oldest id, or no step of a FIFO queue |
| RingProgress.PutDecides | im-message/src/main/java/com/itrjp/im/message/uid/buffer/RingBuffer.java:124-152 | what every step of a put comes to on tail, cursor and owners: it is given up exactly when bufferSize - 1 ids are ahead of the cursor it read or a taker still owns the next slot; else it goes on and appends its id |
| RingProgress.PutRejectedIff | im-message/src/main/java/com/itrjp/im/message/uid/buffer/RingBuffer.java:124-152 | in every interleaving without a stale update a put is rejected if and only if bufferSize - 1 ids are ahead of the cursor it read or a taker still owns the next slot |
| RingProgress.PutAlone | im-message/src/main/java/com/itrjp/im/message/uid/buffer/RingBuffer.java:124-152 | a put that no step interrupts appends its id if and only if there is room in front of the cursor and in the next slot; else nothing changes |
| RingProgress.TakeDecides | im-message/src/main/java/com/itrjp/im/message/uid/buffer/RingBuffer.java:164-197 | what every step of a take comes to on cursor, tail and puts: the update claims the number behind an unmoved cursor, is rejected exactly when the tail it read was the cursor, starts again if the cursor moved; a claimed number is always handed out with the id put under it |
| RingProgress.TakeEmpty | im-message/src/main/java/com/itrjp/im/message/uid/buffer/RingBuffer.java:164-181 | a take alone on an empty ring is rejected and changes nothing |
| RingProgress.TakeAlone | im-message/src/main/java/com/itrjp/im/message/uid/buffer/RingBuffer.java:164-197 | a take alone on a ring with ids hands out the oldest one |
| StaleClaims.SameIdTwice | im-message/src/main/java/com/itrjp/im/message/uid/buffer/RingBuffer.java:166-181 | on every ring, for every two takers or more: an interleaving with one id put in which two takers hand it out |
| StaleClaims.HandsOutOnceIff | im-message/src/main/java/com/itrjp/im/message/uid/buffer/RingBuffer.java:164-197 | all interleavings hand out each id at most once if and only if at most one thread takes |
| StaleClaims.StaleThrows | im-message/src/main/java/com/itrjp/im/message/uid/buffer/RingBuffer.java:166-192 | the same two claims in another order, on every such ring: number 0 is claimed twice, but the second taker throws at the flag and only one id is handed out |
| ConcurrentUid.PaddingIsExclusive | im-message/src/main/java/com/itrjp/im/message/uid/buffer/BufferPaddingExecutor.java:153-177 | in every interleaving at most one thread is in the padding loop, one exactly when running is set, each second is paid out at most once, and the ids put strictly increase |
| ConcurrentUid.UidsAreUnique | im-message/src/main/java/com/itrjp/im/message/uid/impl/CachedUidGenerator.java:78-150 | in every interleaving of takers and padders without that update, no long is handed out twice and claims follow the increasing put order |
| ConcurrentUid.AtomicClaimsUnique | im-message/src/main/java/com/itrjp/im/message/uid/impl/CachedUidGenerator.java:78-150 | the same whenever takers serialise their claims, or there is only one taker, whatever the padding threads do |
| ConcurrentUid.SameUidTwice | im-message/src/main/java/com/itrjp/im/message/uid/impl/CachedUidGenerator.java:78-150 | with two takers or more and a padder, an interleaving that hands out the first long of the first second twice |
| ConcurrentUid.AllUniqueIff | im-message/src/main/java/com/itrjp/im/message/uid/impl/CachedUidGenerator.java:78-150 | over all interleavings of takers and padders in the timestamp range, longs are unique if and only if at most one thread takes |
| PaddingProgress.PutsExactly | im-message/src/main/java/com/itrjp/im/message/uid/buffer/BufferPaddingExecutor.java:153-177 | in every interleaving the rejected puts determine the ids put: without one in between the next id is the next sequence, or sequence 0 of the next second after the last; m of them cost the rest of the second and m - 1 more; the seconds paid out are those after the start without a gap |
| PaddingProgress.NoneLeftOut | im-message/src/main/java/com/itrjp/im/message/uid/buffer/BufferPaddingExecutor.java:153-177 | as long as no put has been rejected the ids put are all ids from the second after the start on, one after another |
| PaddingProgress.RejectedIff | im-message/src/main/java/com/itrjp/im/message/uid/buffer/BufferPaddingExecutor.java:164-171 | in every interleaving without a stale update a padder's put is rejected if and only if bufferSize - 1 ids are ahead of the cursor it read or a taker still owns the next slot |
| PaddingProgress.PaddingAlone | im-message/src/main/java/com/itrjp/im/message/uid/buffer/BufferPaddingExecutor.java:153-177 | a padding that no step interrupts, from any reachable state in which no taker holds a claimed number: it ends, the ring is full of the ids from the next second on, running is cleared, and the second it stopped in is spent |
| Varints.VarintReads | load-test/google-protobuf.js:365-369 | a reader finds exactly the number and the length of a base-128 encoding in place |
| Varints.VarintByte | load-test/google-protobuf.js:423-425 | byte i of an encoding is group i of seven bits, with the high bit on all but the last |
| Varints.VarintShortest | load-test/google-protobuf.js:423-425 | no number is written with more bytes than its groups of seven bits need |
| Varints.VarintLenIs | load-test/google-protobuf.js:365-368 | a varint ends with its first byte below 128; there is none if no byte within limit and array is |
| Varints.PayloadGroup | load-test/google-protobuf.js:365-368 | group k of the number read is the low seven bits of byte k |
| Varints.SplitInt64Value | load-test/google-protobuf.js:340 | the halves of a signed number are its two's complement modulo 2^64 |
| Varints.JoinInt64Value | load-test/google-protobuf.js:346-347 | joining reads the halves as two's complement, rounded to the nearest double |
| Varints.SplitJoin | load-test/google-protobuf.js:340-347 | splitting and joining gives a 64-bit integer back if and only if it is a double, as every JavaScript number is |
| Doubles.ToDoubleIs | load-test/google-protobuf.js:346 | rounding is off by at most half the gap between doubles and exact for doubles only |
| Doubles.RoundedIs | load-test/google-protobuf.js:346 | rounding goes to the nearest multiple of the gap, and to the even one of two |
| Doubles.ToDoubleIsDouble | load-test/google-protobuf.js:346 | a rounded number is a double |
| BinaryEncoder.BinaryEncoder.End | load-test/google-protobuf.js:422 | hands over the buffer and starts an empty one |
| BinaryEncoder.BinaryEncoder.WriteSplitVarint64 | load-test/google-protobuf.js:423 | appends the base-128 encoding of the 64-bit number made by the halves |
| BinaryEncoder.BinaryEncoder.WriteUnsignedVarint32 | load-test/google-protobuf.js:425 | appends the base-128 encoding of the number |
| BinaryEncoder.BinaryEncoder.WriteSignedVarint32 | load-test/google-protobuf.js:426 | appends the encoding of the 64-bit two's complement, ten bytes for negative numbers |
| BinaryEncoder.BinaryEncoder.WriteNegativeVarint32 | load-test/google-protobuf.js:426 | nine shifted groups and a last 1 encode the 64-bit two's complement |
| BinaryEncoder.BinaryEncoder.WriteSignedVarint64 | load-test/google-protobuf.js:428 | appends the encoding of the 64-bit two's complement |
| BinaryEncoder.BinaryEncoder.WriteString | load-test/google-protobuf.js:441-442 | appends the UTF-8 bytes that Encode specifies and returns how many |
| Utf8.CharReads | load-test/google-protobuf.js:378 | the reader turns the bytes of one written character into its own UTF-16 units and consumes exactly them |
| Utf8.EncodeIs | load-test/google-protobuf.js:441-442 | what is written is, code point by code point, the form of RFC 3629: one byte below 80, two below 800, three below 10000, four else (hexadecimal), lead bytes 00-7F, C2-DF, E0-EF, F0-F4, continuation bytes 80-BF; pairs of surrogates are one code point |
| Utf8.FormUnique | load-test/google-protobuf.js:441-442 | a code point has one such form |
| Utf8.FormExamples | load-test/google-protobuf.js:441-442 | the bytes of one character of each length |
| BinaryDecoder.UnitCases | load-test/google-protobuf.js:378-379 | the reader at every lead byte: stray continuation bytes, lead bytes from F8 on and positions past the array give nothing |
| Utf8.DecodeEncode | load-test/google-protobuf.js:378-379 | reading a written string in place gives the units that survive the writer and stops exactly at its end |
| Utf8.RoundTripIff | load-test/google-protobuf.js:378-379 | the round trip returns the string if and only if every high surrogate but a final one is followed by a low surrogate |
| Utf8.EncodeNonEmpty | load-test/google-protobuf.js:441-442 | no non-empty string is written as nothing |
| BinaryDecoder.BinaryDecoder.ReadUnsignedVarint32 | load-test/google-protobuf.js:368 | value, cursor and exception of the unrolled reader on all inputs, overlong and truncated ones included |
| BinaryDecoder.BinaryDecoder.ReadSignedVarint32 | load-test/google-protobuf.js:369 | the same read as a signed 32-bit number |
| BinaryDecoder.BinaryDecoder.ReadSplitVarint64 | load-test/google-protobuf.js:365 | the low 64 bits of up to ten groups as two halves, an exception exactly when no byte ends the varint |
| BinaryDecoder.BinaryDecoder.SkipVarint | load-test/google-protobuf.js:366 | the cursor goes behind the first byte without continuation bit |
| BinaryDecoder.AfterVarintIs | load-test/google-protobuf.js:366 | that is behind the first byte below 128, or the first position past the array |
| BinaryDecoder.BinaryDecoder.ReadString | load-test/google-protobuf.js:378-379 | units and final cursor of the UTF-8 reader on all inputs, whatever the batches of 8192 units |
| BinaryDecoder.BinaryDecoder.Advance | load-test/google-protobuf.js:364 | moves the cursor and fails exactly past the end |
| BinaryReader.BinaryReader.NextField | load-test/google-protobuf.js:386-387 | end, exception, or field number, wire type and cursor, on all inputs |
| BinaryReader.FieldAtIs | load-test/google-protobuf.js:386-387 | a tag byte is field number times 8 plus wire type; wire types 6 and 7 and positions outside the block throw |
| BinaryReader.BinaryReader.SkipVarintField | load-test/google-protobuf.js:388 | skips a varint, throws on another wire type |
| BinaryReader.BinaryReader.SkipDelimitedField | load-test/google-protobuf.js:388 | skips length and body, throws when they pass the end |
| BinaryReader.BinaryReader.SkipFixedField | load-test/google-protobuf.js:389 | skips four or eight bytes, throws when they pass the end |
| BinaryReader.BinaryReader.SkipGroup | load-test/google-protobuf.js:390 | on all inputs: skips nested groups to the matching end tag, throws on a foreign one or at the end, or is not finished within the number of fields given |
| BinaryReader.BinaryReader.SkipField | load-test/google-protobuf.js:391 | on all inputs: ends where the pure function FieldEnd says, throws when it does, or is not finished |
| BinaryReader.FieldEndIs | load-test/google-protobuf.js:388-391 | wire types by number: 0 ends behind the varint, 1 after eight bytes, 5 after four, 2 after its length, 3 with its group; every other one throws |
| BinaryReader.BinaryReader.ReadInt64 | load-test/google-protobuf.js:398-408 | readInt64 and readEnum: the signed 64-bit value rounded to a double, an exception on another wire type |
| BinaryReader.BinaryReader.ReadString | load-test/google-protobuf.js:409 | length, then that many bytes of UTF-8 |
| BinaryReader.BinaryReader.OpenMessage | load-test/google-protobuf.js:395 | readMessage before its callback narrows the block to the message |
| BinaryReader.BinaryReader.CloseMessage | load-test/google-protobuf.js:395 | readMessage after its callback goes to the message's end and restores the block |
| Records.SkipsRecord | load-test/google-protobuf.js:388-391 | skipping ends exactly behind the body of any well-formed record, nested groups and overlong tags and lengths included |
| Records.GroupOutcomes | load-test/google-protobuf.js:390 | after any records a group ends at its own end tag and throws at another group's, at the end of the block, and at a tag that cannot be read |
| Records.SignedReads | load-test/google-protobuf.js:365-369 | every int32 written as a varint is read back by the unrolled 32-bit reader and by the 64-bit reader of readEnum, consuming exactly its bytes |
| Records.SplitReads | load-test/google-protobuf.js:365-423 | every pair of 32-bit halves is written in at most ten bytes and read back from exactly these |
| BinaryWriter.SpellsClose | load-test/google-protobuf.js:450 | replacing a bookmark by the length turns the two innermost levels into one |
| BinaryWriter.BinaryWriter.WriteFieldHeader | load-test/google-protobuf.js:454 | appends the tag to the innermost level |
| BinaryWriter.BinaryWriter.BeginDelimited | load-test/google-protobuf.js:450 | appends the header and opens a level; its block remembers the total length |
| BinaryWriter.BinaryWriter.EndDelimited | load-test/google-protobuf.js:450 | closes the level: its length and its text go to the level outside, totalLength_ stays the sum of all levels |
| BinaryWriter.PushLength | load-test/google-protobuf.js:450 | the loop of endDelimited_ appends the encoded length and counts its bytes |
| BinaryWriter.BinaryWriter.AppendUint8Array | load-test/google-protobuf.js:449 | adds encoded bytes to the innermost level |
| BinaryWriter.BinaryWriter.WriteEnum | load-test/google-protobuf.js:472 | adds one varint field |
| BinaryWriter.BinaryWriter.WriteInt64 | load-test/google-protobuf.js:461 | adds one varint field |
| BinaryWriter.BinaryWriter.WriteString | load-test/google-protobuf.js:473 | adds one length-prefixed field with the UTF-8 bytes |
| BinaryWriter.BinaryWriter.GetResultBuffer | load-test/google-protobuf.js:452 | returns the outermost text, throws exactly when a field is still open, and leaves a writer fit for another call exactly when nothing was pending in the encoder |
| WriterTrees.WriteRecords | load-test/google-protobuf.js:449-474 | for any tree of nested messages the blocks with bookmarks spell header, length, body, recursively |
| Packets.ParsesRecords | load-test/packet_pb.js:174-205 | parsing any list of well-formed, well-typed records, whose tags, lengths and numbers may be any varints that read as the right value, equals applying them in order, with the cursor behind the last |
| Packets.ParsesAll | load-test/packet_pb.js:174-205 | the same for a whole buffer, ending exactly at its end |
| Packets.NumberFieldIs | load-test/packet_pb.js:160-205 | on any bytes, the number fields of the three messages take the 64-bit varint there as a double, or throw without one |
| Packets.TextFieldIs | load-test/packet_pb.js:656-685 | on any bytes, the text fields take as many bytes as their length says, unchecked against the block |
| Packets.NestedFieldIs | load-test/packet_pb.js:186-197 | on any bytes, nested messages are parsed from blank in the block their length says, unchecked against the outer one, and end at its end |
| Packets.OtherFieldIs | load-test/packet_pb.js:198-201 | every other field number is skipped |
| Packets.PutIs | load-test/packet_pb.js:160-205 | which property each field number sets |
| Packets.WrongTypeThrows | load-test/packet_pb.js:160-205 | field by field for the three messages: numbers need wire type 0, texts and messages 2, any other one throws |
| Packets.ParseOutcomes | load-test/packet_pb.js:174-205 | after any records parsing ends at the end of the block or behind an end tag, and throws at a tag that cannot be read or a field that throws |
| ParseTermination.ParseMore | load-test/packet_pb.js:174-205 | once a run is finished, allowing more fields does not change its outcome |
| ParseTermination.DeserializingEndsIff | load-test/packet_pb.js:174-205 | for all bytes and positions: deserializing ends if and only if its run never comes back to a field header without having left the loop it met it in; if it ends, it does within a number of fields known beforehand |
| ParseTermination.SkippingEndsIff | load-test/google-protobuf.js:390-391 | the same for skipping a group |
| ParseTermination.ForwardEnds | load-test/google-protobuf.js:388 | a run that skips no delimited field of negative length ends; other varints that read as negative do not matter |
| ParseTermination.EndlessExample | load-test/google-protobuf.js:388 | eleven concrete bytes on which deserializing any of the three messages never ends |
| PacketCodec.SerializeMessage | load-test/packet_pb.js:921-944 | writes the record encoding of the message, default values left out |
| PacketCodec.SerializeEvent | load-test/packet_pb.js:706-736 | writes the record encoding of the event, default values left out |
| PacketCodec.WriteMessage | load-test/packet_pb.js:242-249 | writes a nested message as one length-prefixed field |
| PacketCodec.WriteEvent | load-test/packet_pb.js:250-257 | writes a nested event as one length-prefixed field |
| PacketCodec.SerializePacket | load-test/packet_pb.js:226-258 | writes the record encoding of the packet, nested messages whenever present |
| PacketCodec.SerializeBinary | load-test/packet_pb.js:212-216 | returns exactly the encoded records of the packet, which are the bytes that SerializedBytes spells out |
| PacketBytes.SerializedBytes | load-test/packet_pb.js:226-258 | the bytes of the three messages as literals: packet tags 08, 10, 1A, 22, message tags 08, 12, 18, event tags 0A, 12, 18, 20 (hexadecimal), numbers as varints, texts and messages after their length, defaults left out |
| PacketBytes.BytesExample | load-test/packet_pb.js:226-258 | the twelve bytes of a concrete packet |
| PacketCodec.DeserializeMessage | load-test/packet_pb.js:875-900 | on every input: message, cursor and exception are those of Parse |
| PacketCodec.DeserializeEvent | load-test/packet_pb.js:656-685 | the same for events |
| PacketCodec.DeserializePacket | load-test/packet_pb.js:174-205 | the same for packets, nested messages in their own block |
| PacketCodec.DeserializeBinary | load-test/packet_pb.js:160-164 | on every input: deserializes a buffer from its start |
| PacketCodec.SendAndReceive | load-test/packet_pb.js:160-258 | serializing and deserializing returns the same packet if and only if its strings are paired |
| PacketRoundTrip.RoundTrip | load-test/packet_pb.js:160-258 | for every writable Packet, Event and Message: the parse of its bytes is the message up to dropped surrogates and ends exactly at the end, absent and empty nested messages kept apart; equal if and only if the strings are paired |
| PacketRoundTrip.UnknownIsTransparent | load-test/packet_pb.js:199-201 | any well-formed record with an unknown number between any others changes nothing, overlong tags and lengths included |
| PacketRoundTrip.LastOneWins | load-test/packet_pb.js:174-205 | of two serialized messages in a row the second one's non-default fields win and nested messages are replaced whole |
| Arith.AddValue | load-test/google-protobuf.js:443 | addition modulo 2^64 |
| Arith.SubValue | load-test/google-protobuf.js:444 | subtraction modulo 2^64 |
| Arith.CmpValue | load-test/google-protobuf.js:442 | comparison of the numbers |
| Arith.LeftShiftValue | load-test/google-protobuf.js:442 | doubling modulo 2^64 |
| Arith.RightShiftValue | load-test/google-protobuf.js:442 | halving |
| Arith.MsbValue | load-test/google-protobuf.js:443 | the top bit |
| Arith.Mul32x32 | load-test/google-protobuf.js:444-445 | the exact 64-bit product |
| Arith.Mul | load-test/google-protobuf.js:445 | multiplication by a 32-bit number modulo 2^64 |
| Arith.Div | load-test/google-protobuf.js:446 | both loops end with quotient and remainder; nothing for divisor 0 |
| Decimal.ToString | load-test/google-protobuf.js:446 | the decimal numeral of the number |
| Decimal.FromString | load-test/google-protobuf.js:447 | null exactly on a character that is no digit, else the decimal value modulo 2^64 |
| Decimal.NumeralReads | load-test/google-protobuf.js:446-447 | the decimal value of a numeral is its number |
| Decimal.NumeralCanonical | load-test/google-protobuf.js:446 | a numeral has no leading zero |
| Decimal.DigitsAre | load-test/google-protobuf.js:446-447 | the digits are 0 to 9 in this order |
| Decimal.JoinUnsignedIsNumeral | load-test/google-protobuf.js:350 | three base-10^7 limbs with carries print the same numeral, for all halves |
| Int64.JoinSignedIsNumeral | load-test/google-protobuf.js:351 | the signed numeral of the two's complement number, for all halves |
| Int64.ToString | load-test/google-protobuf.js:449 | the signed numeral, equal to what joinSignedDecimalString prints |
| Int64.FromString | load-test/google-protobuf.js:449 | null exactly on a malformed string, else the signed value modulo 2^64 |
| Int64.SignedExamples | load-test/google-protobuf.js:449 | the sign may only be a minus in front; a plus, a second minus and a minus behind are malformed |
| Int64.PrintedReads | load-test/google-protobuf.js:350-351 | printed numbers read back as themselves, signed and unsigned |
| Int64.MultiplyAdd | load-test/google-protobuf.js:353 | the byte loop multiplies and adds modulo 2^64, early exit included |
| Int64.ComplementAll | load-test/google-protobuf.js:353 | complements every byte |
| Int64.DecimalStringToHash64 | load-test/google-protobuf.js:353 | the eight bytes of the signed value modulo 2^64; throws exactly on the empty string |
| Int64.LittleEndianDigit | load-test/google-protobuf.js:353 | byte k of a hash is digit k of its number to base 256 |
| Int64.SplitHashValue | load-test/google-protobuf.js:346-349 | splitting a hash gives the number its bytes spell, joining gives the bytes back |
| Int64.SplitDecimalString | load-test/google-protobuf.js:353 | on every signed digit string the same 64 bits as Int64.fromString |
| ZigZag.Zigzag32 | load-test/google-protobuf.js:370-429 | the 32-bit shifts and xors are zigzag encoding, 2a for a from 0 up and -2a - 1 below, and its inverse |
| ZigZag.ToZigzag64Value | load-test/google-protobuf.js:347 | zigzag encoding on two halves |
| ZigZag.FromZigzag64Value | load-test/google-protobuf.js:347 | zigzag decoding on two halves |
| ZigZag.Zigzag64RoundTrip | load-test/google-protobuf.js:347 | encoding and decoding undo each other on all pairs of halves |
| ZigZag.SplitZigzag64Value | load-test/google-protobuf.js:341 | the number form agrees on every signed 64-bit integer, the smallest included |
| ZigZag.ZigzagNumberRoundTrip | load-test/google-protobuf.js:341-347 | splitting and joining zigzag numbers gives back exactly the doubles |
| Base64.EncodeByteArray | load-test/google-protobuf.js:335 | the characters for each group of three bytes, padding by alphabet |
| Base64.MapsAgree | load-test/google-protobuf.js:340 | every character of each alphabet maps back to its index, and none is white space |
| Base64.Tables | load-test/google-protobuf.js:340 | the five alphabets as literal strings, paddings included |
| Base64.ByteOfIs | load-test/google-protobuf.js:340 | the decoder's map is exactly the union of the alphabets |
| Base64.SpaceIs | load-test/google-protobuf.js:339 | white space is 25 listed characters |
| Base64.DecodeThrowsIff | load-test/google-protobuf.js:339 | decoding throws if and only if some character is in no alphabet and no white space |
| Base64.GroupIs | load-test/google-protobuf.js:339 | four indices are three octets, three are two, two are one |
| Base64.ValuesIs | load-test/google-protobuf.js:339 | groups follow one another; a missing second index counts as 0, a missing third or fourth as padding |
| Base64.StrayPadding | load-test/google-protobuf.js:338-339 | padding in place of an index gives a nine-bit value, of which the array keeps eight bits |
| Base64.DecodeStringToByteArray | load-test/google-protobuf.js:337-339 | value and exception of the streaming decoder on every string |
| Base64.SpaceIsIgnored | load-test/google-protobuf.js:339 | removing all white space from any string changes nothing |
| Base64.RoundTrip | load-test/google-protobuf.js:335-339 | the one decoder returns the bytes that were encoded, for all byte arrays and five alphabets |
| Base64.DecodeStringToUint8Array | load-test/google-protobuf.js:338 | the decoded values, as far as the computed array length holds them |
| Base64.ArrayRoundTrip | load-test/google-protobuf.js:338-340 | the computed length never loses a byte of an encoding, white space put in or not |
| ConnectNodeLoadService.ConnectNodeLoadServiceImpl.Start | im-message/src/main/java/com/itrjp/im/message/service/stat/ConnectNodeLoadServiceImpl.java:27-32 | the node replaces any other under its id |
| ConnectNodeLoadService.ConnectNodeLoadServiceImpl.Connect | im-message/src/main/java/com/itrjp/im/message/service/stat/ConnectNodeLoadServiceImpl.java:35-48 | adds the node to the channel's list and one to its load; throws without a change on an unknown node |
| ConnectNodeLoadService.ConnectNodeLoadServiceImpl.Disconnect | im-message/src/main/java/com/itrjp/im/message/service/stat/ConnectNodeLoadServiceImpl.java:51-61 | removes one entry if there is one and lowers the load in any case; throws without a change on an unknown node |
| ConnectNodeLoadService.ConnectNodeLoadServiceImpl.Stop | im-message/src/main/java/com/itrjp/im/message/service/stat/ConnectNodeLoadServiceImpl.java:64-68 | the node is no longer available |
| ConnectNodeLoadService.ConnectNodeLoadServiceImpl.GetConnectNodeByChannelId | im-message/src/main/java/com/itrjp/im/message/service/stat/ConnectNodeLoadServiceImpl.java:71-77 | the channel's nodes in order of first occurrence, null for one that is not available |
| ConnectNodes.ConservedIff | im-message/src/main/java/com/itrjp/im/message/service/stat/ConnectNodeLoadServiceImpl.java:27-68 | an operation keeps every load equal to the node's occurrences in all lists (as ints) if and only if it is fitting: a disconnect with an entry to remove, a stop without users, a start with the right load |
| ConnectNodes.LoadIsUsers | im-message/src/main/java/com/itrjp/im/message/service/stat/ConnectNodeLoadServiceImpl.java:27-68 | below 2^31 users the int load is their number |
| ConnectNodes.RunConserves | im-message/src/main/java/com/itrjp/im/message/service/stat/ConnectNodeLoadServiceImpl.java:27-68 | over every run of fitting operations loads stay right and lists hold each node as often as connects less disconnects |
| ConnectNodes.DistinctIs | im-message/src/main/java/com/itrjp/im/message/service/stat/ConnectNodeLoadServiceImpl.java:71-77 | distinct keeps each id once and loses none |
| ConnectNodes.DistinctOrder | im-message/src/main/java/com/itrjp/im/message/service/stat/ConnectNodeLoadServiceImpl.java:71-77 | ids are listed by the index of their first occurrence |
| ConnectNodes.ConnectIs | im-message/src/main/java/com/itrjp/im/message/service/stat/ConnectNodeLoadServiceImpl.java:35-48 | connecting appends the id to the channel's list and adds one to the int load |
| ConnectNodes.DisconnectIs | im-message/src/main/java/com/itrjp/im/message/service/stat/ConnectNodeLoadServiceImpl.java:51-61 | disconnecting takes away the entry of least index, keeps the order of the others, and subtracts one from the int load |
| ConnectNodes.LookupFinds | im-message/src/main/java/com/itrjp/im/message/service/stat/ConnectNodeLoadServiceImpl.java:71-77 | a lookup finds exactly the available nodes with users in the channel |
| ConnectNodeLoadService.HasPassing | im-message/src/main/java/com/itrjp/im/message/service/stat/NodeWatchService.java:66-76 | the loop over the checks comes to what Passing says |
| ConnectNodeLoadService.PassingIff | im-message/src/main/java/com/itrjp/im/message/service/stat/NodeWatchService.java:66-76 | a service passes if and only if some check has status passing and no missing status comes before it; it fails if and only if none is missing and none passes |
| ConnectNodeLoadService.ResolveServiceNotify | im-message/src/main/java/com/itrjp/im/message/service/stat/NodeWatchService.java:61-86 | one new node with load 0 for each passing service, in order, with its id, address and ports; throws exactly when Resolved says |
| ConnectNodeLoadService.ResolvedIff | im-message/src/main/java/com/itrjp/im/message/service/stat/NodeWatchService.java:61-86 | resolving throws if and only if some service does, and else keeps exactly the services with a passing check |
| ConnectNodeLoadService.ResolvedAppend | im-message/src/main/java/com/itrjp/im/message/service/stat/NodeWatchService.java:61-86 | services are looked at in order and kept in order |
| ConnectNodeLoadService.ResolvedOne | im-message/src/main/java/com/itrjp/im/message/service/stat/NodeWatchService.java:61-86 | a single service is kept if it passes; a missing port then throws |
| ConnectNodeLoadService.WithoutAppend | im-message/src/main/java/com/itrjp/im/message/service/stat/NodeWatchService.java:41-45 | the nodes that are not removed keep their order |
| ConnectNodeLoadService.PassingIdsIff | im-message/src/main/java/com/itrjp/im/message/service/stat/NodeWatchService.java:61-86 | an id passes if and only if a service of that id has a passing check |
| ConnectNodeLoadService.FindOnline | im-message/src/main/java/com/itrjp/im/message/service/stat/NodeWatchService.java:41-45 | the passing nodes that are not available, in order and as often as they occur |
| ConnectNodeLoadService.FindOffline | im-message/src/main/java/com/itrjp/im/message/service/stat/NodeWatchService.java:54-59 | the available nodes that do not pass |
| ConnectNodeLoadService.HandlerServiceNotify | im-message/src/main/java/com/itrjp/im/message/service/stat/NodeWatchService.java:21-32 | available ids become the passing ids, survivors stay the same objects with their loads, new ones have a passing service's data and load 0, nothing changes when resolving throws |
| ConnectNodeLoadService.ReconciledTwice | im-message/src/main/java/com/itrjp/im/message/service/stat/NodeWatchService.java:21-32 | a second notification with the same services changes nothing |
| ConnectNodeLoadService.ReconciledConserves | im-message/src/main/java/com/itrjp/im/message/service/stat/NodeWatchService.java:21-32 | loads stay right if and only if no node with users goes offline |

## Left out

- PacketCodec.DeserializeBinary: takes a limit on the fields it looks at, which the source does not have, and is
  `Unfinished` when that is used up; `DeserializingEndsIff` says when a limit is high enough. The same holds
  for the other deserializers and for SkipField and SkipGroup.
- BinaryReader.BinaryReader.SkipGroup: groups nested deeper than JavaScript's call stack throw there; here
  recursion is unbounded, so a run that circles by entering one group again and again, which would end in
  that exception, counts as never ending.
- BitsAllocator.New: the constructor also takes negative widths that add up; here widths are natural numbers. The
  generators' setters let only positive ones through.
- RingBuffer.RingBuffer.ClaimNext: the class splits take into the claim and the read, so that a padding can
  run in between; the atomic steps are in ConcurrentRing, under sequential consistency.
- BinaryWriter.BinaryWriter.BeginDelimited: the returned block is an index into the list of blocks instead of
  a JavaScript reference to the array.
- ConcurrentUid.UidsAreUnique: the seconds borrowed from the future stay in the timestamp range, which the
  cached path does not check.
- Int64.DecimalStringToHash64: a string with other characters than a leading minus and digits is converted without
  an exception; the value it gives, also through SplitDecimalString, is not stated.
- Custom rejected-put and rejected-take handlers, thread pools, schedules, shutdown and logging.
- The date text of parseUID, worker id assignment from the database, Spring wiring.
- The priority queue of nodes and getBestNode, which depend on unspecified heap order.
- Float and double encoding, packed and repeated fields, extensions, jspb's array storage of messages.
- unskipVarint, skipMatchingFields and the count functions, which packet_pb.js does not use.
- readFixed and writeFixed of 32 and 64 bits: byte-wise forms of what the hash functions already show.
- The Data message of packet_pb.js: the same generated code with other fields.
- The native btoa and atob that encodeString and decodeString prefer for the default alphabet.
- Netty, Kafka, REST, MyBatis and k6 code: plumbing over libraries that are not part of this model.
