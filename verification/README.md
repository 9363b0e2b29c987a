# Verified models of the growing queue, the byte ring, the region XOR and the generator

The program moves encrypted streams between threads with four hand-written pieces, and this project
models each of them with its own branches and constants and proves what it is for.

* **The growing queue** (`src/cyclic_queue.c`): many producers and many consumers share a ring of
  fixed-size elements whose two indices double as locks, and a producer that finds it full relocates
  the ring into a larger region. It is modelled twice against one abstract first-in first-out queue
  (`QueueMachine.Apply`): as a machine of any number of threads with one step per atomic access, per
  byte of an element copy and per element of a relocation (`QueueMachine`, `QueueInvariant`,
  `QueueTheorems`, `QueueProgress`, `QueueCalls`), and as a class over a byte region whose calls run alone
  (`CyclicQueue`). Both use the same definition of what the region holds (`QueueInvariant.RingOk`).
* **The byte ring** (`src/cyclic_buffer.c`): one writer, one recoder and one reader share a ring of
  bytes; each stage publishes to the next counter before it subtracts from its own. It is modelled as
  a machine of three interleaved stages, byte by byte (`Pipeline`, `PipelineInvariant`,
  `PipelineTheorems`, `PipelineProgress`), and as a class over flat memory (`CyclicBuffer`, on
  `RingStore`). `PipelineQuiet` says that between calls the class's view of the ring is what the
  machine's streams say, `PipelinePair` joins two rings, one of them the mask of the other, with all
  stages of both running, and `PipelineRecodeNone` widens the machine by `recode_none`.
* **The region XOR** (`src/common.c`): alignment, unrolled vectors, single vectors, words and bytes,
  in one flat memory where an address is an index (`XorMemory`), for the scalar widths of
  `src/max_scalar.h`.
* **The generator** (`src/random.c`): the state step and the seeding (`Xoshiro`), the byte stream
  (`Random`) and the loop that gathers random bytes (`RandomFill`).

`Bytes` and `Ring` hold what they share: bytes and their XOR, index arithmetic around a ring, and a
ring seen from one of its slots. Fields that the C code keeps in structs are fields of classes that
the methods reassign; machines are state values with a step function. `written`, `masked`,
`delivered`, `contents`, `events`, `responses`, `copied`, `growths` and the lock owners are history:
no step depends on them.

One property fails and is stated exactly: `cyclic_buffer_recode_none` is safe only on a ring that no
writer uses meanwhile. `PipelineRecodeNone.RecodeNoneSoundExactly` gives the condition,
`PipelineRecodeNone.RecodeNoneLosesForGood` what every other interleaving costs, and
`PipelineRecodeNone.OneChunkDies` the smallest ring that the program makes, which one such call leaves
full and closed to every stage for ever.

## Model

| member | source | states |
|---|---|---|
| `QueueMachine.Step` | src/cyclic_queue.c:6-181 | one atomic access, copied byte or moved element of push, take or growth; an action that does not apply changes nothing |
| `QueueMachine.Apply` | src/cyclic_queue.c:62-181 | the abstract bounded first-in first-out queue: which outcomes it allows and what each leaves |
| `QueueTheorems.InitHolds` | src/cyclic_queue.c:22-52 | a queue set up over any region, with a limit lowered at most to its capacity, satisfies the invariant |
| `QueueTheorems.AccessesInBounds` | src/cyclic_queue.c:96-131 | in every state of the invariant the next access of every thread stays inside the regions and the size never runs below zero |
| `QueueTheorems.RunKeeps` | src/cyclic_queue.c:62-181 | every interleaving of any number of threads, with any spurious failures and allocator answers, keeps the invariant |
| `QueueTheorems.Linearizable` | src/cyclic_queue.c:62-181 | every run is a legal history of one bounded queue, and every thread is told exactly what its own events did, in order |
| `QueueCalls.CallsAnswered` | src/cyclic_queue.c:62-181 | in every run each thread's events and results answer its calls one by one and in order: a push with the very element of the call, a take with a take; only the last call may be open, and it is exactly when the thread is busy |
| `QueueCalls.AcceptedStarts` | src/cyclic_queue.c:62-151 | an idle thread's call is always accepted, and the thread is then busy with just that call |
| `QueueCalls.EmptyTakeNeverWaits` | src/cyclic_queue.c:149-151 | a take called on an empty queue fails within two own steps, whoever holds the locks, and touches neither |
| `QueueTheorems.ConfigInNumbers` | src/cyclic_queue.h:4-10 | the element sizes and capacities that count as a set-up, in numbers |
| `QueueTheorems.RealTimeOrder` | src/cyclic_queue.c:131-180 | each operation takes effect between its call and its return: results handed out by any instant belong to events recorded by then, and history is only appended to |
| `QueueTheorems.FirstInFirstOut` | src/cyclic_queue.c:62-181 | elements pushed are the elements taken, in push order, each once, followed by what the queue still holds |
| `QueueTheorems.EventExplained` | src/cyclic_queue.c:73-86 | in any legal history a failed take saw an empty queue, a failed push exactly the maximum unless memory was refused, and a taken element was the oldest |
| `QueueTheorems.OutcomeExplained` | src/cyclic_queue.c:79-92 | in the machine, the step at which an operation takes effect sees just that: emptiness, fullness at the limit, or fullness below it with a refused allocation |
| `QueueTheorems.StepRecorded` | src/cyclic_queue.c:126-180 | a step records at most one event, of its own thread and for an operation without one, and returns exactly the recorded outcome |
| `QueueTheorems.CopiesDoNotCollide` | src/cyclic_queue.c:127-166 | a pusher and a taker that copy at the same time, with no lock in common, use different slots inside the region, up to the taker's decrement |
| `QueueTheorems.TakenSlotStable` | src/cyclic_queue.c:158-170 | from the start of a taker's copy to its decrement no step of another thread changes its slot; what it has copied is a prefix of the oldest element and at the decrement all of it |
| `QueueTheorems.RegionReplacedUnderBothLocks` | src/cyclic_queue.c:74-124 | region and capacity change only under both locks held by the changing thread, with no other thread between a lock and its unlock |
| `QueueTheorems.SentinelNeverCollides` | src/cyclic_queue.c:6-19 | an unlocked index is below the capacity, which is below the sentinel, and the test before unlocking holds exactly for the owner of the take lock |
| `QueueTheorems.OffsetsFit` | src/cyclic_queue.c:88-127 | offsets, allocation sizes, the doubled capacity and the index sum fit in 32 bits |
| `QueueTheorems.GrowthIsAmortized` | src/cyclic_queue.c:74-116 | over any run, relocations copy at most two elements per successful push, one still under way included, and there are at most twelve of them |
| `QueueInvariant.MoveSourceIsNext` | src/cyclic_queue.c:95-109 | the i-th element moved by a relocation, from one block or two, is the i-th oldest |
| `QueueInvariant.RingAfterSwitch` | src/cyclic_queue.c:111-123 | after the switch the same elements start at slot 0 and the push slot behind them is in range and free |
| `QueueInvariant.PushAddKeeps` | src/cyclic_queue.c:127-131 | publishing the element appends it to the abstract queue and disturbs no other thread |
| `QueueInvariant.TakeSubKeeps` | src/cyclic_queue.c:166-170 | the decrement removes the oldest element and disturbs no other thread |
| `QueueProgress.HolderReturns` | src/cyclic_queue.c:112-143 | a thread that holds the locks it needs returns within a bounded number of its own steps, whatever the others do in between |
| `QueueProgress.DeadlockFree` | src/cyclic_queue.c:62-181 | whenever an operation is unfinished, some thread returns within a bounded number of its own steps |
| `QueueProgress.SomeThreadIsAlone` | src/cyclic_queue.c:69-77 | some busy thread needs no lock that another holds: takers never wait while holding, pushers lock push before take |
| `CyclicQueue.CyclicQueue.Init` | src/cyclic_queue.c:22-52 | it succeeds exactly for at most 0x40000 elements of at most 0x400 bytes when memory is given, and then holds an empty queue of at least 0x40 |
| `CyclicQueue.CyclicQueue.Push` | src/cyclic_queue.c:62-145 | it fails exactly when the ring is full and cannot grow; otherwise it appends the element, and a full ring grows to twice its capacity or the limit |
| `CyclicQueue.CyclicQueue.Grow` | src/cyclic_queue.c:80-122 | relocation keeps the queue, starts it at slot 0 and leaves room; at the limit or without memory nothing changes |
| `CyclicQueue.CyclicQueue.Take` | src/cyclic_queue.c:147-181 | it fails exactly on an empty queue; otherwise the caller's buffer starts with the oldest element and the rest stays |
| `CyclicQueue.MoveOut` | src/cyclic_queue.c:96-109 | the new region starts with the bytes of all elements, oldest first, whether the old ring wraps or not |
| `CyclicQueue.FlatStore` | src/cyclic_queue.c:127-127 | bytes stored at index times element size change that slot and no other |
| `CyclicQueue.FlatBlock` | src/cyclic_queue.c:99-108 | a block of whole slots holds the bytes of just those slots |
| `CyclicQueue.OldestFirst` | src/cyclic_queue.c:96-108 | the elements are one block of slots, or two when they wrap |
| `Pipeline.Step` | src/cyclic_buffer.c:38-197 | one atomic access or one byte of a stage, or the start of a call with its chunk size |
| `PipelineInvariant.RunKeeps` | src/cyclic_buffer.c:38-157 | every interleaving of the three stages keeps released, recoded, written and released plus size in order, the counters exact, and every position in its slot |
| `PipelineTheorems.StreamLaw` | src/cyclic_buffer.c:38-157 | over every run the bytes read are a prefix of the written stream XOR the consumed mask stream |
| `PipelineTheorems.XorBack` | src/test_cyclic_buffer.c:99-105 | over every run, XORing the bytes read with the consumed mask stream gives back the written bytes |
| `PipelineTheorems.DrainedMeansDelivered` | src/cyclic_buffer.c:38-157 | when the recoder and the reader have emptied their stages, everything written has come out |
| `PipelineTheorems.EncodeDecode` | src/cyclic_buffer.c:75-157 | two rings in a row with one mask stream give back a prefix of the original, for any sizes, chunks and interleavings |
| `PipelineTheorems.WriterApartFromRecoder` | src/cyclic_buffer.c:75-157 | the slots that writer and recoder may touch differ, also between a publication and its subtraction |
| `PipelineTheorems.WriterApartFromReader` | src/cyclic_buffer.c:38-110 | likewise writer and reader |
| `PipelineTheorems.RecoderApartFromReader` | src/cyclic_buffer.c:38-157 | likewise recoder and reader |
| `PipelineTheorems.OnlyCopiesWrite` | src/cyclic_buffer.c:92-141 | only the copying writer and the XORing recoder change a byte, each in its own slot |
| `PipelineTheorems.ReadRangeUndisturbed` | src/cyclic_buffer.c:51-69 | no step changes a byte that the reader is still to copy |
| `PipelineTheorems.RecodeRangeUndisturbed` | src/cyclic_buffer.c:135-153 | no step of another stage changes a byte that the recoder works on |
| `PipelineTheorems.CounterAccounting` | src/cyclic_buffer.c:66-153 | the counters add up to the size plus what is published and not yet subtracted, and no counter or index sum leaves 32 bits |
| `PipelineTheorems.IdleCountersExact` | src/cyclic_buffer.c:41-167 | the counter that a stage loads at the start of a call is the exact amount open to it |
| `PipelineTheorems.InnerCallIsExact` | src/cyclic_buffer.c:180-188 | each call inside a recode from a second ring consumes exactly what it is asked for, whatever was written meanwhile |
| `PipelineRecodeNone.StepAccounts` | src/cyclic_buffer.c:66-153 | no call and no step but `recode_none` changes how much of the ring the counters account for, in any state |
| `PipelineRecodeNone.NothingComesBack` | src/cyclic_buffer.c:66-153 | and over any run with any calls, `recode_none` included, it never grows |
| `PipelineRecodeNone.StoreZeroExactly` | src/cyclic_buffer.c:118-118 | storing zero keeps the ring sound if and only if nothing is left to recode; what is left is what the counters lose |
| `PipelineRecodeNone.StoreZeroLosesForGood` | src/cyclic_buffer.c:118-118 | in every later state, whatever is called, the counters account for that much less than the ring |
| `PipelineRecodeNone.RecodeNoneSoundExactly` | src/cyclic_buffer.c:112-120 | with the other stages running at every point between, the call leaves the ring sound, and all of it accounted for, if and only if the writer publishes nothing between its load and its store |
| `PipelineRecodeNone.RecodeNoneLosesForGood` | src/cyclic_buffer.c:112-120 | every byte published in between costs the ring a byte of room for ever |
| `PipelineRecodeNone.RecodeNoneCanKillTheRing` | src/cyclic_buffer.c:112-120 | in a ring of any size, a write of its size that falls between the load and the store leaves a full ring from which nothing is ever read and into which nothing is ever written, whatever is called |
| `PipelineRecodeNone.OneChunkDies` | src/cyclic_buffer.c:4-29 | the same for the smallest ring that set-up makes, with the writer's steps spelt out |
| `PipelinePair.TwoRingLaw` | src/cyclic_buffer.c:159-197 | over every run of both rings with all their stages, the data ring uses exactly the bytes taken from the mask ring, these are a prefix of the mask stream, and the output is the written stream XOR that stream |
| `PipelinePair.RecodeXorBufFinishes` | src/cyclic_buffer.c:159-197 | a whole call, with the other stages of both rings at work before, between and after its two loads: it returns within a fixed number of its own steps with both rings k bytes further on, k the smaller of what waits in the data ring at the call and what is readable in the mask ring at the second load, nothing when either is nothing |
| `PipelinePair.DataStagesRun` | src/cyclic_buffer.c:38-110 | writer and reader of the data ring do there what they do in a ring by itself |
| `PipelinePair.MaskStagesRun` | src/cyclic_buffer.c:75-157 | and so do writer and recoder of the mask ring |
| `PipelineInvariant.CallsStayInside` | src/cyclic_buffer.c:179-188 | mask bytes that wrap are read in two inner calls, up to the end of the mask ring and from its start, and else in one |
| `PipelinePair.XorRefines` | src/cyclic_buffer.c:183-187 | XORing the byte that lies in the mask ring at that moment is a recoder's step on the data ring and a reader's step on the mask ring |
| `PipelinePair.BeginRefines` | src/cyclic_buffer.c:161-182 | fixing the amount is a recode call on the data ring over the mask bytes that lie there and a read call on the mask ring |
| `PipelinePair.LiveByteIsNext` | src/cyclic_buffer.c:183-187 | the byte read in place is the next one of the mask stream, while the mask ring's other stages run |
| `PipelineProgress.WriteFinishes` | src/cyclic_buffer.c:75-110 | in any interleaving a write appends exactly the first bytes of its source, as many as there was room for when called, and returns within a fixed number of its own steps |
| `PipelineProgress.ReadFinishes` | src/cyclic_buffer.c:38-73 | in any interleaving a read hands out exactly as many bytes as were recoded when called, or asked for, and they are the next of the masked stream |
| `PipelineProgress.RecodeFinishes` | src/cyclic_buffer.c:122-157 | in any interleaving a recode uses exactly the first mask bytes, as many as bytes waited when called |
| `PipelineProgress.RecodeNoMaskFinishes` | src/cyclic_buffer.c:122-157 | without a mask, as many bytes as waited or were asked for pass on unchanged |
| `PipelineProgress.RecodeBufFinishes` | src/cyclic_buffer.c:159-197 | a recode from a second ring uses exactly its first bytes, as many as both had when called, in one inner call or two, however much is written in between |
| `PipelineQuiet.QuietRingIsStages` | src/cyclic_buffer.c:38-157 | between calls, what waits for the reader completes the masked stream, what waits for the recoder is the rest of the written stream, and the remainder is free |
| `CyclicBuffer.CyclicBuffer.Init` | src/cyclic_buffer.c:4-29 | it succeeds exactly for 1 to 0x40000 chunks when memory is given, with 4096 bytes a chunk, all writable |
| `CyclicBuffer.CyclicBuffer.ApartSharesNothing` | src/cyclic_buffer.c:159-197 | the two rings of a recode are exactly two that share no byte of memory |
| `CyclicBuffer.CyclicBuffer.Read` | src/cyclic_buffer.c:38-73 | the oldest bytes, as many as there are and asked for, go to the destination if there is one, and their slots become free; nothing else in memory changes |
| `CyclicBuffer.CyclicBuffer.Write` | src/cyclic_buffer.c:75-110 | the source's bytes, as many as fit, line up for the recoder; without a source the slots keep what they hold; nothing outside the ring changes |
| `CyclicBuffer.CyclicBuffer.RecodeNone` | src/cyclic_buffer.c:112-120 | on a ring of one's own, everything that waits goes to the reader as it is |
| `CyclicBuffer.CyclicBuffer.RecodeXor` | src/cyclic_buffer.c:122-157 | the oldest waiting bytes, as many as asked for, go to the reader XORed with the mask, or as they are without one |
| `CyclicBuffer.CyclicBuffer.RecodeXorBuf` | src/cyclic_buffer.c:159-197 | the first k waiting bytes are XORed with the first k bytes of the other ring, k the smaller amount, wherever either ring wraps, and both move on by k |
| `CyclicBuffer.CyclicBuffer.RecodeExactly` | src/cyclic_buffer.c:183-187 | a call that asks for no more than waits recodes exactly that |
| `CyclicBuffer.XorTwice` | src/cyclic_buffer.c:182-184 | recoding with two stretches of mask in turn is recoding with both at once |
| `RingStore.TurnAfterStore` | src/cyclic_buffer.c:88-101 | a transfer in one block or two replaces one stretch of the ring as seen from any slot, and nothing outside the ring |
| `RingStore.TurnLoaded` | src/cyclic_buffer.c:51-64 | a transfer out of the ring in one block or two picks up one stretch of the ring as seen from any slot |
| `RingStore.XorAcrossEnd` | src/cyclic_buffer.c:136-142 | XORing two blocks with adjacent mask bytes stores the XOR of the whole stretch across the end of the ring |
| `Ring.NextIdxWraps` | src/cyclic_buffer.c:51-64 | the branch on the end of the ring and the remainder together give the slot that many bytes on |
| `Ring.SegRotates` | src/cyclic_buffer.c:67-67 | advancing the read index turns the oldest bytes into the youngest slots |
| `XorMemory.XorMemoryRegion` | src/common.c:149-183 | for every start address, size and scalar width the region is XORed byte by byte with the mask and nothing else changes |
| `XorMemory.XorAtByte` | src/common.c:46-49 | what XORing a region means for each byte of the memory |
| `XorMemory.XorAtTwice` | src/common.c:149-183 | XORing the same region twice restores the memory |
| `XorMemory.XorSimple` | src/common.c:13-52 | 64-bit words, at most one 32-bit word and then bytes, or 32-bit words and bytes, XOR the whole region |
| `XorMemory.XorAllWords` | src/common.c:15-44 | after the 64-bit loop a single 32-bit step leaves at most four bytes, and at least one when there were any |
| `XorMemory.XorQuads` | src/common.c:59-79 | the unrolled loop stays inside the region and on aligned addresses and leaves less than four vectors |
| `XorMemory.XorAligned` | src/common.c:56-144 | both vector loops and the remainder XOR the whole aligned region, with an aligned mask or not |
| `XorMemory.PairStored` | src/common.c:60-66 | loading both vectors of each operand before storing the first is harmless: the two stores XOR both |
| `XorMemory.Word32Xor` | src/common.c:36-39 | the XOR of two packed 32-bit words is the byte-wise XOR |
| `XorMemory.Word64Xor` | src/common.c:18-21 | the XOR of two packed 64-bit words is the byte-wise XOR |
| `XorMemory.AlignedSum` | src/common.c:60-78 | a whole number of vectors past an aligned address is aligned |
| `XorMemory.UnalignedTail` | src/common.c:151-151 | the masked address is zero exactly when the address is a multiple of the scalar's size |
| `XorMemory.MaskTakesRemainder` | src/max_scalar.h:91-92 | masking any address with the low bits of a scalar width takes its remainder |
| `XorMemory.WordMaskTakesRemainder` | src/max_scalar.h:91-92 | on machine words too, with the mask written as a double complement |
| `Xoshiro.Xoshiro128Plus` | src/random.c:13-28 | the output is the wrapping sum of the old first and last words, the four words are replaced by the named operations on the old ones, and both agree with the step on values |
| `Xoshiro.StepInBits` | src/random.c:16-25 | each new word in exclusive or and shifts of the old ones |
| `Xoshiro.MixInBits` | src/random.c:18-23 | the mixing operation is the exclusive or of the machine |
| `Xoshiro.Left9InBits` | src/random.c:16-16 | the shift operation is the shift of the machine by 9 |
| `Xoshiro.RotateInBits` | src/random.c:25-25 | the rotation is made of the machine's shifts by 11 and 21 |
| `Xoshiro.PrevOfNext` | src/random.c:16-25 | a step can be undone |
| `Xoshiro.NextOfPrev` | src/random.c:16-25 | every state is the successor of one: with the row above, the step is a bijection |
| `Xoshiro.NeverRunsTogether` | src/random.c:13-28 | after any number of steps, equal states come from equal states only |
| `Xoshiro.SeedOne` | src/random.c:39-41 | the four words that the seed 1 gives, in numbers |
| `Xoshiro.SeedOneOutputs` | src/random.c:13-28 | the first two outputs from that seed, in numbers |
| `Xoshiro.NeverDegenerates` | src/random.c:39-41 | from no seed does any number of steps reach the all-zero state |
| `Random.SeedOneBytes` | src/random.c:43-56 | the first six bytes that the seed 1 gives, in numbers |
| `Random.FillPrng` | src/random.c:32-59 | the buffer receives exactly the seed's stream, with one step for every four bytes or part of four |
| `Random.StreamPrefix` | src/random.c:43-56 | asking for fewer bytes gives the beginning of what asking for more gives |
| `Random.LowBytesAreFirst` | src/random.c:52-55 | shifting the last word out byte by byte gives the first bytes of its layout in memory |
| `RandomFill.FillFromKernel` | src/random.c:67-79 | however the kernel cuts its answers, the buffer is filled with what it gave; the call succeeds exactly if the answers before the first failure suffice, reports the code of that failure otherwise, and waits when there is none |
| `RandomFill.JoinedAt` | src/random.c:70-76 | each byte of each answer before the first failure lies right behind the answers before |
| `RandomFill.JoinedLength` | src/random.c:70-76 | and there are no other bytes |
| `RandomFill.FillFromPrng` | src/random.c:61-79 | with the generator one round fills the buffer with the seed's stream |

## Left out

- Weak memory: atomic accesses interleave sequentially consistently; the memory orders of section 7.17.3 of ISO/IEC 9899:2011 are not modelled.
- Fairness and starvation of the spin loops, and `sched_yield`: a spurious compare-and-swap failure is one more spin step.
- The allocator: success or failure is an input, a fresh region holds arbitrary bytes, and freed regions are not tracked.
- QueueMachine.Step: a slot of the region is one element, a relocation moves whole elements and never a byte at a time, because both locks are held; how slots lie in bytes is in CyclicQueue.
- QueueMachine.Step: copies proceed in ascending order of bytes and reads of plain fields under a lock are part of the step that uses them.
- QueueTheorems.InitHolds: the caller may lower the limit after set-up, but not below the capacity.
- Pipeline.Step: copies proceed in ascending order of bytes; a write without a source is only in the class, since the bytes that it publishes are unspecified to the caller.
- Pipeline.Step: the bytes, the start and the size of a second ring enter a recode as inputs of the call; PipelinePair has the second ring itself.
- Pipeline.Step: `recode_none` is no action here, because with a writer the invariant would not survive it; PipelineRecodeNone has it.
- PipelinePair.TwoRingLaw: the data ring's recoder makes no other calls than recodes from the mask ring, and the mask ring has no other reader.
- CyclicBuffer.CyclicBuffer.Init: the product of chunk size and chunks must fit the signed type, since the C code multiplies before it checks.
- CyclicBuffer.CyclicBuffer.RecodeXor: buffers of the caller lie outside the ring, as the copies of the C library demand.
- XorMemory.XorMemoryRegion: data and mask must not overlap.
- XorMemory.XorAligned: a vector is a sequence of byte lanes, and the two textually equal vector functions are one method with a flag for the mask's loads.
- XorMemory.Word64Xor: memory is little-endian, and unaligned word accesses are allowed, as on the machines that the build supports.
- Random.FillPrng: time and process id enter as one arbitrary seed; statistical quality is not a subject.
- RandomFill.FillFromKernel: the answers of the kernel are an input; when they run out the call is still waiting, and the choice between kernel and generator is fixed for a call.
- `cyclic_queue_destroy`, `cyclic_buffer_destroy` and the messages to the error stream: no state that a property would speak of.
- `src/ec_helper.c`: thin wrappers over libbase58 and libsecp256k1, which are not part of this model.
- `src/cryptochan.c`, `src/cryptochan_config.c`, `src/dispatcher.c`, `src/server.c`: option and configuration parsing, sockets and process plumbing.
- `src/session.h` and `src/client.c`: state names without transitions.
- The test programs: their intended properties are theorems here; sleeps and printing are not modelled.
