# A verified model of an out-of-order RV32IM core

The repository simulates, cycle by cycle, an out-of-order RV32IM processor: in every cycle each
unit reads a snapshot of the state at the start of the cycle and writes its own part of the next
one. This project models the seven pieces of it that carry a correctness promise, and proves that
they keep it.

* **Division** (`Divider`, `SrtDivision`): the radix-4 digit-recurrence divider with carry-save
  partial remainders, digit selection from truncated slices and on-the-fly quotient conversion.
  It delivers exactly what section 7.2 of the RISC-V Unprivileged ISA (20191213) asks for, for all
  operands, within 19 ticks. The yardstick is the module `RiscV`.
* **Data cache and memory** (`FlatMemory`, `DataMemory`, `Coherence`, `DataCache`,
  `MemoryHierarchy`): a 4-way write-back cache with tree-PLRU replacement in front of a dual-port
  memory of 20 cycles. Together they are a flat byte memory in which a miss takes exactly 22 ticks.
* **Register renaming and squash recovery** (`Tags`, `Rename`, `RenameInvariants`, `RenameCore`,
  `RenameTheorems`, `RenameStage`, `UnguardedIssue`): rename table, free list, reorder buffer, the
  tails of the load and store queues and the checkpoint ids. In every run a squash recovers exactly,
  no physical register is lost or handed out twice, and live checkpoints are distinct, up to two
  kinds of words that are issued without a guard; for these the exact condition is given.
* **Squash arbitration** (`FlushArbiter`, `SquashLoop`, `ResultUnits`, `UnitBuffers`,
  `RunningUnits`): the queue of squash requests, the loop it closes with the reorder buffer, and the
  three units whose results raise the requests. Every pending request names an instruction in flight,
  the accepted one takes all others with it, and the queue never overflows.
* **Load and store queue** (`StoreForwarding`, `MemQueues`, `StoreQueueTick`, `StoreQueueRun`,
  `StoreDrain`, `LoadQueueTick`, `LoadQueueRun`, `LoadReplies`, `ForwardingTick`, `MemoryArbiter`): the
  ring scans agree with plain statements about sequences, both queues hold exactly the loads and
  stores in flight behind the committed ones, stores reach memory once each in program order, and
  forwarding serves a load with the right value or misses it. Where a load gets a wrong value or
  none, the exact condition is given.
* **Multiplication** (`Booth`, `Multiplier`): Booth rows, a tree of 3:2 compressors and a pipeline
  of three stages. Results are exact (section 7.1), and every dispatch that no squash covers is
  delivered once, three ticks later.
* **Folded branch history** (`Folding`, `BranchHistory`, `FetchHistory`): rotating a fold and adding
  two bits is refolding the shifted history, for every history length and width, and a squash brings
  back the history from before the fetch of the instruction it names.

## How the model is built

Every unit that the simulator updates in place is a class with the same fields and the same
methods; a local copy taken at the start of a tick plays the part of the snapshot. Next to it stand
functions on values that say what one step does, and the methods are proved to do that step. What
the design promises is proved about the functions, over all reachable states, so a method that did
something else would fail. Nor do the functions stand for themselves: `TickLaws`, `ArbiterLaws` and
`QueueLaws` say what they mean in terms of the fetched instructions, of positions and of ages, and the
laws in `RiscV` and `FlatMemory` in terms of products, quotients and bytes.

Machine words are the natural numbers they denote: a left shift is a multiplication, a right shift a
division, masking with 2^n - 1 a remainder modulo 2^n. The bitwise operators are defined bit by bit
in `Bits`. Wrap-around is written out where a word can overflow; the negation of the pattern of the
smallest integer in `DIV::getValue`, which C++ leaves undefined, wraps. Capacities have the
values of the default build (`Capacities`); tags, free-list sequence numbers and folds are proved
for every capacity, history length and width.

Renaming is stated against a history: the instructions in flight with what every structure held
right after each was issued. `RenameTheorems.Reach` computes it for any sequence of inputs, starting
from reset. An input may issue the instruction at the head of the decode queue, fetch, complete
instructions, and squash; ids move through the request queue, the fetch queue and the decode queue
under the program's own tests, and instructions commit when the model says they do, also in the tick
of a squash or an issue. `RenameCore.Offered` says what a tick may be given: a squash names an
instruction in flight that executes, by its tag and its checkpoint. `SquashLoop` takes this away as
an assumption: there the squash is the arbiter's oldest request, and requests come from instructions in
flight whose result is only being delivered. `RunningUnits` takes that away as well: stations, result
buffers and load queue tick with core and arbiter, and what they hold is in flight.

`RenameCore.Safe` is a condition on the program, not on its surroundings. The program issues halts
and words that do not decode without the usual tests (`src/StaticArbiter/StaticArbiter.cpp:696-704`,
`:779-782`), and its invariants fail exactly when such a word enters a full reorder buffer whose head
does not commit in that tick, or when a word that does not decode is issued while it is not the turn
of checkpoint id 0: `RenameCore.LegalIsExact`. `UnguardedIssue` says what then happens. A halt takes
the place of the oldest instruction and commits before the sixteen in front of it: this may happen
from every reachable state with an empty buffer and a running front, sixteen ticks later, with
instructions that fit the stations (`UnguardedIssue.HaltReplacesTheHead`). An undecodable word
overwrites the checkpoint of whoever holds id 0; a run from reset shows it. Even where its issue is
safe, an undecodable word never completes and holds up everything behind it until it is squashed.

Forwarding is decided on the queues as they were at the start of a tick, for all values and the one
address that arrive in it. A load only ever takes the value of the store that the queue after the
tick answers it with (`ForwardingTick.NoticeServes`), but it can be missed: precisely when an
address arrives at a store that the load sees, younger than the one that answers it, or at that one
together with its value (`ForwardingTick.NewAnswersAreServed`).
`ForwardingTick.BothTogetherAreMissed` is such a tick. A missed load is not sent to the cache before
the store has committed (`MemoryArbiter.LeavingLoadIsNotHeldBack`).

A reply of the cache names a load by place and tag, and the load queue accepts it if the load there is
fetching under that tag. This fails in three ways, each with its exact condition in `LoadReplies` and
a run or a tick that shows it. A reply reaches another load precisely if that load, with the same
place and tag, is sent in the very tick of the reply (`RepliesGoAstray`). A load waits for ever
precisely if its reply is there in the tick of a squash that names the load itself: the reply is
dropped, the load stays (`NamedLoadIsLost`). And a load that is served by a notice in the tick in
which it is sent is fetching again afterwards; the store that serves it is one whose address arrives
in that tick, so that neither the arbiter nor the violation detector knew of it (`ServedAndSent`,
`SentLoadIsOverlooked`).

In one place the program and its own comments disagree, and the model follows the program: the free
list is said to hold only the registers 32 .. 47 (`src/include/common.hpp:122-128`), but commits
return the registers bound at reset as well, so it holds any of 1 .. 47. One asymmetry is taken over
as it is: a squash drops a finished product whose tag equals the squash tag, but keeps one that is
still in a pipeline stage (`src/MUL/MUL.cpp:181-192`); a multiplication never raises a squash, so the
case does not arise.

To verify everything: `dafny verify dfyconfig.toml --resource-limit 2000000`.

## Model

| member | source | states |
|---|---|---|
| Tags.NextOfEncoded | src/include/common.hpp:34-38 | The tag after the tag of the n-th allocation is that of the next one, for every capacity: slots run through 0 .. cap-1 and the epoch flips at the end. |
| Tags.FieldsOfNext | src/include/common.hpp:78-82 | The successor of any well-formed sequence number advances the slot, or restarts it in the other epoch. |
| Tags.OlderIsEarlier | src/ROB/ROB.cpp:7-17 | Tags fewer than a capacity apart compare as they were allocated, and are equal only if they are the same allocation. |
| Tags.LiveTagsAreOrdered | src/ROB/ROB.cpp:7-17 | Among live tags, being older is being closer to the oldest one. |
| Tags.LiveAfterRetire | src/ROB/ROB.cpp:58-58 | Retiring the oldest tag keeps every other live tag live, one place closer. |
| Tags.FullAndEmpty | src/ROB/ROB.cpp:27-34 | Equal head and next tag mean no live entry; equal slots otherwise mean exactly capacity many. |
| Tags.DistanceIsExact | src/include/common.hpp:84-97 | The distance put together from slots and epochs is the difference of the allocations modulo two rounds, for every capacity. |
| SrtDivision.EstimateIsClose | src/DIV/DIV.cpp:154-159 | The folded 9-bit slice sum never aliases: with its lowest bit dropped it is at most three ulps below the remainder the registers stand for. |
| SrtDivision.DigitIsLegal | src/DIV/DIV.cpp:164-195 | The digit the comparisons select keeps the next partial remainder within two thirds of the divisor. |
| SrtDivision.FirstDigitIsLegal | src/DIV/DIV.cpp:123-148 | So does the first digit; it is 0 only for a doubled divisor, and then the next digit is positive. |
| SrtDivision.LeftoverIsExact | src/DIV/DIV.cpp:210-216 | With all digits produced, quotient and remainder, corrected by the sign of what is left, are exact. |
| Divider.Clz | src/DIV/DIV.cpp:5-30 | The five halvings count the leading zeros. |
| Divider.DivideUnit.Receive | src/DIV/DIV.cpp:32-103 | Special operands are answered at once with the required value; all others are latched as magnitudes and signs. |
| Divider.FirstStep | src/DIV/DIV.cpp:106-151 | Alignment and first digit establish the recurrence on the scale of the divisor, with at most 16 digits to come. |
| Divider.EstimateSlice | src/DIV/DIV.cpp:154-159 | The sign-extended slice leads to a legal digit, a positive one after a first digit 0. |
| Divider.UpdateRemainder | src/DIV/DIV.cpp:160-195 | The carry-save pair after a digit stands for the next partial remainder modulo the register width. |
| Divider.ConvertQuotient | src/DIV/DIV.cpp:169-194 | The two quotient registers hold the quotient and the quotient minus one after every digit. |
| Divider.DivideUnit.Prepare | src/DIV/DIV.cpp:106-151 | Preparation establishes the recurrence invariant and raises exactly one stage flag. |
| Divider.DivideUnit.Loop | src/DIV/DIV.cpp:152-202 | An iteration keeps the recurrence invariant and counts down. |
| Divider.AddRegisters | src/DIV/DIV.cpp:205-209 | The masked sum of the registers, sign-extended, is the signed leftover. |
| Divider.Correct | src/DIV/DIV.cpp:210-216 | The sign selects the quotient register and the shifts recover the remainder. |
| Divider.DivideUnit.CalculateResult | src/DIV/DIV.cpp:203-219 | After the last digit the value on the bus is the required one. |
| Divider.SignsRestored | src/include/DIV.hpp:68-90 | Putting the signs back onto quotient and remainder of the magnitudes gives the result of section 7.2. |
| RiscV.DivisionLaw | src/include/DIV.hpp:68-90 | Signed quotient and remainder fit together, the remainder is smaller than the divisor and has the sign of the dividend. |
| RiscV.UnsignedDivisionLaw | src/include/DIV.hpp:68-90 | The same for the unsigned operations. |
| RiscV.ZeroDivisorLaw | src/DIV/DIV.cpp:48-55 | Without a divisor the quotient has all bits set and the remainder is the dividend. |
| Divider.DivideUnit.Flush | src/DIV/DIV.cpp:220-244 | A squash frees the unit exactly when it is older than the operation. |
| Divider.DivideUnit.Tick | src/DIV/DIV.cpp:245-268 | At most one stage or result flag is up; every tick brings an operation that is not squashed one tick closer to its result. |
| Divider.LatencyBound | src/DIV/DIV.cpp:114-116 | An operation takes between 1 and 19 ticks. |
| Divider.AnsweredAtOnce | src/DIV/DIV.cpp:32-103 | An operation takes a single tick exactly for a zero divisor, the overflowing quotient and a dividend no larger than the divisor. |
| Divider.DivideUnit.Run | src/DIV/DIV.cpp:245-268 | Left alone, an accepted operation yields exactly the value of section 7.2 after exactly its latency, at most 19 ticks. |
| FlatMemory.LoadLaw | src/DCache/DCache.cpp:59-74 | A load has the bytes it reads, modulo its width, and lies in the range of a signed or an unsigned number of that width. |
| FlatMemory.StoreThenLoad | src/DMEM/DMEM.cpp:15-27 | On the flat memory a load of the same width reads what a store wrote, modulo the width and in its signed or unsigned range. |
| FlatMemory.StoredByteLoads | src/DCache/DCache.cpp:133-138 | Read back singly, the bytes of a store are those of the word, lowest first. |
| FlatMemory.StoreSpares | src/DCache/DCache.cpp:133-138 | A load that a store does not touch reads what it read before. |
| FlatMemory.RequestTakesEffect | src/DCache/DCache.cpp:111-168 | A store request is there for loads of its width and touches nothing else; a load request changes nothing. |
| FlatMemory.LoadsAreAnswered | src/DCache/DCache.cpp:244-314 | A run answers its loads once each and in order, each response naming place and tag of its load. |
| FlatMemory.LoadSeesStores | src/DCache/DCache.cpp:38-104 | A load is answered with the value of the memory that the stores in front of it left. |
| DataMemory.DMEM.WriteData | src/include/Memory.hpp:69-72 | A byte is written inside the array and dropped outside. |
| DataMemory.DMEM.WriteLine | src/DMEM/DMEM.cpp:29-33 | Writing a line changes its 16 bytes and no others. |
| DataMemory.DMEM.ReadLine | src/DMEM/DMEM.cpp:65-72 | A read returns the 16 bytes of the line, zero beyond the array. |
| DataMemory.WrittenBlocks | src/DMEM/DMEM.cpp:29-33 | All other lines keep their content; lines beyond the array stay zero. |
| DataMemory.DMEM.Tick | src/DMEM/DMEM.cpp:43-91 | Both ports claim, count down and complete independently; a reply is visible for one tick. |
| Coherence.LineAddressIsFrame | src/DCache/DCache.cpp:94-97 | The address put together from the victim's tag and set is that of the victim's own line. |
| Coherence.DistinctFrames | src/DCache/DCache.cpp:94-97 | Different tags or sets are different lines of memory. |
| Coherence.StoreHit | src/DCache/DCache.cpp:132-138 | A store into a cached line is the store on the flat memory. |
| Coherence.Fill | src/DCache/DCache.cpp:252-257 | Filling a droppable way keeps cache and memory together standing for the same flat memory. |
| Coherence.WriteBack | src/DCache/DCache.cpp:89-101 | So does writing a dirty victim back to its own line. |
| Coherence.CleanIsDroppable | src/DCache/DCache.cpp:89-101 | A clean line equals memory and may be replaced without a write-back. |
| DataCache.VictimIsNotRecent | src/DCache/DCache.cpp:27-31 | The replacement tree selects neither of the two ways used last. |
| DataCache.VictimByUse | src/DCache/DCache.cpp:27-58 | After any uses, the victim is in the half of the set that was not used last, and is the way there that was not the last one used in it. |
| DataCache.UsedIsKept | src/DCache/DCache.cpp:38-104 | What a hit used stays in the cache and is not the next to be replaced. |
| DataCache.FilledIsKept | src/DCache/DCache.cpp:244-314 | So does a line that has just been filled in. |
| DataCache.InvalidWaysFirst | src/DCache/DCache.cpp:19-31 | While a set has an invalid way, the first of them is taken and no line is lost. |
| DataCache.DCache.AllocateLine | src/DCache/DCache.cpp:19-31 | An invalid way is preferred, the first one; otherwise the tree decides. |
| DataCache.ExtractBytes | src/DCache/DCache.cpp:59-74 | Extraction reads the little-endian bytes of the request, modulo the width and in its signed or unsigned range. |
| DataCache.StoreIntoLine | src/DCache/DCache.cpp:133-138 | A store replaces exactly the bytes of the request in the line. |
| DataCache.DCache.PrRd | src/DCache/DCache.cpp:38-104 | A read hit returns the bytes and marks the way; a miss parks the request and asks for refill and write-back. |
| DataCache.DCache.PrWr | src/DCache/DCache.cpp:111-168 | The same for writes. |
| DataCache.DCache.Serve | src/DCache/DCache.cpp:244-314 | The arriving line is filled in, the parked request served from it, and the cache is ready again. |
| DataCache.DCache.Tick | src/DCache/DCache.cpp:170-317 | The two phases, and the pulses that last one tick. |
| MemoryHierarchy.Hierarchy.Tick | src/DCache/DCache.cpp:170-317 | The memory a program sees changes exactly by the accepted request; a hit is answered at once and a miss 22 ticks after acceptance, both with the value of the flat memory. |
| MemoryHierarchy.Hierarchy.TickBusy | src/DMEM/DMEM.cpp:43-91 | Refill and write-back count down in lockstep, so the reply always meets an idle write port and is never lost. |
| MemoryHierarchy.Hierarchy.Run | src/DCache/DCache.cpp:170-317 | Any sequence of accepted requests is answered as the flat memory answers it, once each and in order, within 23 ticks a request. |
| RenameStage.RAT.constructor | src/include/RAT.hpp:28-34 | At reset register x is bound to physical register x. |
| RenameStage.RAT.Tick | src/RAT/RAT.cpp:23-40 | The table and its checkpoints make the specified step from the state at the start of the tick. |
| RenameStage.PRF.Fill | src/PRF/PRF.cpp:18-24 | The registers not bound at reset enter the free list in order. |
| RenameStage.PRF.Tick | src/PRF/PRF.cpp:109-137 | Head, tail, list and head checkpoints make the specified step; pops never underflow. |
| RenameStage.ROB.Push | src/ROB/ROB.cpp:50-56 | An entry is put at the slot of the next tag, under that tag. |
| RenameStage.ROB.Tick | src/ROB/ROB.cpp:116-192 | Push, completions, flush and pop make the specified step; a halt at the head is latched, with its register, exactly when it commits. |
| RenameStage.RenameUnit.Tick | src/CPU/CPU.cpp:225-248 | All structures ticking together stay in the state that the inputs so far lead to from reset. |
| RenameInvariants.LiveTagMatches | src/ROB/ROB.cpp:36-39 | The tag of every instruction in flight matches, at its own slot. |
| RenameTheorems.LiveTagsAreTheWindow | src/ROB/ROB.cpp:36-39 | A well-formed tag names an instruction in flight if and only if it lies between the head and the next tag. |
| RenameTheorems.CommittedTagStillMatches | src/ROB/ROB.cpp:36-39 | The program's own test is weaker: the tag of an instruction that has just committed still matches while others are in flight, outside that window. |
| RenameTheorems.SquashedTagStillMatches | src/ROB/ROB.cpp:110-114 | So does the tag of one that has just been squashed. |
| RenameInvariants.RobOccupancy | src/ROB/ROB.cpp:27-34 | Full means 16 instructions in flight, empty none. |
| RenameInvariants.CommitIsOldest | src/ROB/ROB.cpp:41-44 | A commit takes the oldest instruction in flight, never one the squash of the same tick covers. |
| TickLaws.CommitsExactly | src/ROB/ROB.cpp:41-44 | The oldest instruction commits if and only if it is ready and the squash of the tick, if any, names a younger one; then the head moves on. |
| TickLaws.ReadyExactly | src/ROB/ROB.cpp:120-177 | An entry is ready after a tick exactly if it was before, or a completion carries its tag and the instruction is in front of the one squashed to. |
| TickLaws.CompletionsTake | src/ROB/ROB.cpp:120-177 | Whoever is completed in front of the squash is ready after the tick, or has committed in it. |
| TickLaws.EmptyMatchesNothing | src/ROB/ROB.cpp:36-39 | No tag matches in an empty buffer. |
| TickLaws.FreesExactly | src/PRF/PRF.cpp:128-137 | A commit returns the register that the destination was bound to before it, and nothing else moves the tail of the free list. |
| RenameInvariants.RatIssue | src/RAT/RAT.cpp:28-39 | An issue renames one register and saves the new table without touching any live checkpoint. |
| RenameInvariants.PrfIssue | src/PRF/PRF.cpp:109-114 | An issue hands out the register at the head of the free list and saves the new head. |
| RenameInvariants.PrfCommitAllocating | src/PRF/PRF.cpp:128-137 | A commit that frees a register overwrites no slot that is still needed, and moves the freed register into the pool. |
| RenameInvariants.TailIssue | src/StaticArbiter/StaticArbiter.cpp:488-489 | The tails saved at issue include the instruction's own place in its queue. |
| RenameInvariants.FrontMoves | src/InstructBuffer/InstructBuffer.cpp:55-73 | Whatever moves between request queue, fetch queue and decode queue, an issue takes the oldest waiting id and a fetch adds the next one; none is lost and no queue overflows. |
| TickLaws.FrontMovesExactly | src/InstructBuffer/InstructBuffer.cpp:55-73 | Each of the three queues passes its oldest id on whenever the next one has room, and a fetch is taken whenever there is room. |
| RenameCore.IssueFacts | src/StaticArbiter/StaticArbiter.cpp:656-789 | What is issued into a buffer with room carries the oldest waiting checkpoint id and is recorded as every structure expects. |
| TickLaws.IssuesExactly | src/StaticArbiter/StaticArbiter.cpp:656-789 | An instruction issues exactly when one waits, no squash comes and there is room; halts and words that do not decode issue without asking for room. |
| TickLaws.RenamesExactly | src/StaticArbiter/StaticArbiter.cpp:478-490 | An instruction other than a store or a branch that has a destination other than x0 binds it to the register at the head of the free list, which is neither mapped nor pending; the rest of the table stays, and any other instruction leaves table and free list alone. Both are saved under its checkpoint. |
| TickLaws.NothingIssued | src/CPU/CPU.cpp:225-248 | Without issue and squash table, free-list head, tails and next tag stay. |
| TickLaws.TailsAdvance | src/LQ/LQ.cpp:142-145 | The tails move exactly for loads and for stores. |
| TickLaws.FlightIsItsUop | src/StaticArbiter/StaticArbiter.cpp:482-491 | The entry of an issued instruction has its kind, program counter, predicted target, destination, registers, checkpoint and tails. |
| TickLaws.FlightsAreTheirUops | src/Decoder/Decoder.cpp:95-97 | In every run, what is in flight is what the tick of its issue was given. |
| RenameCore.RestoredTailsAre | src/LQ/LQ.cpp:195-198 | A squash finds the tails to return to in the entry it names. |
| RenameCore.StepKeepsInv | src/CPU/CPU.cpp:225-248 | Every legal tick, with issue or squash and a commit, keeps all invariants, also when a halt enters a full buffer whose head commits. |
| RenameCore.LegalIsExact | src/StaticArbiter/StaticArbiter.cpp:656-789 | Of all ticks that can be offered, precisely those keep the invariants in which an unguarded issue finds room or a committing head, and an undecodable word finds id 0 to be the next one. |
| RenameTheorems.SquashRestores | src/RAT/RAT.cpp:24-27 | A squash takes table, free-list head, next tag and both queue tails to what they were right after the named instruction issued. |
| RenameTheorems.RecoveryIsExact | src/ROB/ROB.cpp:110-114 | The same for every run, against the state the run itself went through after the tick that issued an instruction under this tag and checkpoint, whatever was issued and committed since, also in the squash tick. |
| RenameTheorems.RegistersAreConserved | src/PRF/PRF.cpp:36-40 | Mapped registers, registers waiting to be freed and free registers together are the registers 1 .. 47, once each. |
| RenameTheorems.FreeListCoversBuffer | src/include/common.hpp:61-61 | The free list holds 16 registers minus those pending in the buffer, so it is empty only when the buffer is full. |
| RenameTheorems.IssueNeverStarves | src/StaticArbiter/StaticArbiter.cpp:232-234 | The test for an empty free list never stops an instruction that the other tests let through. |
| RenameTheorems.AssertionsHold | src/PRF/PRF.cpp:25-49 | The assertions of the program hold: real registers only, the register popped is the one in the packet, and a restored head is at most one round back. |
| RenameTheorems.IdsAreDistinct | src/include/common.hpp:136-141 | Checkpoint ids in the buffer, in front of it, and the next one to hand out are pairwise different. |
| RenameInvariants.CkptSquash | src/BPU/BPU.cpp:680-681 | A squash restarts the ids right behind the named instruction. |
| RenameTheorems.ReachableStatesAreSound | src/CPU/CPU.cpp:225-248 | Conservation, coverage and distinct ids in every state that any legal run reaches. |
| UnguardedIssue.HaltOvertakes | src/StaticArbiter/StaticArbiter.cpp:696-704 | When nothing commits, the oldest entry survives the issue of a halt exactly when the buffer is not full; otherwise the halt is at the head and commits next. |
| UnguardedIssue.HaltReplacesTheHead | src/StaticArbiter/StaticArbiter.cpp:696-704 | After every run that leaves the buffer empty and instructions coming, sixteen more ticks lead to where that happens: a load that misses in the cache, and fifteen instructions that wait for it. |
| UnguardedIssue.FillersFit | src/include/common.hpp:4-9 | Those fifteen never need more places of a station than it has. |
| UnguardedIssue.UndecodableTakesCheckpointZero | src/StaticArbiter/StaticArbiter.cpp:779-782 | Table and head checkpoints of the instructions in flight survive an undecodable word exactly when none of them has id 0 with a table or a free-list head other than the present one. |
| UnguardedIssue.RecoveryAfterUndecodable | src/PRF/PRF.cpp:109-111 | A squash in the next tick recovers table and free-list head exactly when the instruction it names does not hold id 0 or nothing was renamed since. |
| UnguardedIssue.UndecodableReplacesCheckpointZero | src/StaticArbiter/StaticArbiter.cpp:779-782 | A run from reset after which an undecodable word makes a squash come back to another table than the branch had left. |
| UnguardedIssue.UndecodableNeverCommits | src/StaticArbiter/StaticArbiter.cpp:779-782 | In every run an undecodable word that has been issued stays in the buffer as long as no squash covers it and no unit reports its tag. |
| RenameTheorems.StaysInFlight | src/ROB/ROB.cpp:116-192 | An instruction that is not squashed and cannot commit yet is in flight after the tick as well. |
| SquashLoop.RequestsStayLegal | src/DynamicArbiter/DynamicArbiter.cpp:65-156 | A request raised by an instruction in flight whose result is being delivered still names it, with its own checkpoint, in the tick that accepts it. |
| SquashLoop.LoopCloses | src/DynamicArbiter/DynamicArbiter.cpp:65-156 | If every pending request names an instruction in flight, the accepted one is a legal squash, at most three are pending after the tick, and each of them names one again. |
| SquashLoop.EveryRequestRecovers | src/CPU/CPU.cpp:78-78 | In every run of core and arbiter from reset, the oldest request takes the state back to what it was right after the instruction it names issued; nothing is assumed of squashes. |
| SquashLoop.RequestsHappen | src/DynamicArbiter/DynamicArbiter.cpp:69-96 | There is such a run: a mispredicted branch. |
| SquashLoop.Machine.Tick | src/CPU/CPU.cpp:225-248 | Core and arbiter as objects, ticked together, stay in the state that the ticks so far lead to, and the arbiter is not overloaded. |
| SquashLoop.Run | src/CPU/CPU.cpp:225-248 | No run of the two overloads the arbiter. |
| ArbiterLaws.RaisedIsPending | src/DynamicArbiter/DynamicArbiter.cpp:65-156 | After a tick exactly the requests raised in it are pending. |
| ArbiterLaws.BranchGoesToItsTarget | src/DynamicArbiter/DynamicArbiter.cpp:69-96 | In every run a branch whose result arrives is requested, to the target it arrived with, if and only if that differs from the target predicted where it was fetched and no older squash covers it. |
| ArbiterLaws.JumpGoesToItsTarget | src/DynamicArbiter/DynamicArbiter.cpp:98-118 | The same for a jump through a register. |
| ArbiterLaws.LoadIsRequested | src/DynamicArbiter/DynamicArbiter.cpp:120-155 | When the address of a store arrives, the one other request is for the first younger load of the queue that has started at that address, if there is one and no squash covers it or the store. |
| ArbiterLaws.EarlyLoadIsFetchedAgain | src/DynamicArbiter/DynamicArbiter.cpp:143-150 | In every run that load is requested from its own program counter. |
| ResultUnits.WorkStaysHeld | src/RS/RS.cpp:46-163 | Every tick: what is in a station or a result buffer of the branch, arithmetic and address units is an instruction in flight that executes and has not completed. |
| ResultUnits.WorkAfterTick | src/RS/RS.cpp:46-163 | What becomes of each piece of work: dispatched, it is finished; otherwise it stays in its station unless it is younger than the squash; a result waits for the older ones of its buffer unless the squash covers it. |
| UnitBuffers.ResultBuffer.Tick | src/BRU/BRU.cpp:105-123 | A result comes in, the oldest of those there at the start leaves, and a squash drops what is not older than the instruction it names. |
| UnitBuffers.ResultBuffer.Head | src/BRU/BRU.cpp:62-71 | The scan finds the oldest result. |
| UnitBuffers.Station.Tick | src/RS/RS.cpp:96-162 | Instructions enter and leave a station, and a squash frees those younger than the instruction it names. |
| UnitBuffers.HeldWorkIsLive | src/ROB/ROB.cpp:7-17 | Tags of held work are live, so the scan compares them as they were issued. |
| UnitBuffers.HeadDelivers | src/CDB/CDB.cpp:10-23 | Of live results exactly one is the oldest, and it is the one the work step lets leave. |
| UnitBuffers.BufferHoldsWork | src/ALU/ALU.cpp:118-140 | After a tick a result buffer holds what the work step says. |
| UnitBuffers.StationHoldsWork | src/RS/RS.cpp:46-163 | So does a station. |
| RunningUnits.RaisersRun | src/DynamicArbiter/DynamicArbiter.cpp:69-155 | Whoever raises a request, a branch, a jump or a violating load, is in flight and cannot commit yet. |
| RunningUnits.EverySquashRecovers | src/CPU/CPU.cpp:225-248 | In every run from reset of core, arbiter, the three units and the load queue, the oldest request takes the state back to what it was right after the instruction it names issued; nothing is assumed of squashes or of who raises them. |
| RunningUnits.JoinedIsDriven | src/CPU/CPU.cpp:225-248 | Each such run is one of core and arbiter as SquashLoop has it. |
| RunningUnits.PendingIsAccepted | src/DynamicArbiter/DynamicArbiter.cpp:40-53 | A pending request can be accepted by the next tick. |
| RunningUnits.RequestsAreAccepted | src/DynamicArbiter/DynamicArbiter.cpp:69-96 | There is such a run: a mispredicted branch, from its issue to its delivery. |
| StoreForwarding.VisibleAreOlder | src/SQ/SQ.cpp:139-148 | In an ordered queue a load sees exactly the committed stores and those older than itself. |
| StoreForwarding.PushAgreesWithPull | src/LQ/LQ.cpp:120-140 | A load takes a store's notice exactly when asking the updated queue would have answered it with that store. |
| StoreForwarding.DataForwardAgrees | src/SQ/SQ.cpp:63-95 | The same for a tick in which one value arrives, including the case that no notice is sent. |
| StoreForwarding.AddressForwardAgrees | src/SQ/SQ.cpp:97-129 | The same for a tick in which one address arrives. |
| StoreForwarding.CommitKeepsOrder | src/SQ/SQ.cpp:228-236 | Queue order stays age order when the instruction at the head of the reorder buffer commits, be it a store or not. |
| QueueLaws.AnswersExactly | src/SQ/SQ.cpp:131-164 | A store answers a load exactly when it has committed or is older, its address is known and the same, its value is there, and all younger such stores are known to write elsewhere. |
| QueueLaws.LoadMayLeaveExactly | src/StaticArbiter/StaticArbiter.cpp:187-206 | A load may be sent exactly when it is older than the squash of the tick and no older uncommitted store is known to write its address. |
| MemQueues.ActiveIsWithin | src/SQ/SQ.cpp:11-16 | The activity test accepts exactly the positions of the contents, for every head and tail. |
| MemQueues.SQ.FullMeansSeven | src/SQ/SQ.cpp:7-9 | Full means seven entries, empty none. |
| MemQueues.SQ.PushStore | src/SQ/SQ.cpp:20-28 | Appends an entry without address and value. |
| MemQueues.SQ.Flush | src/SQ/SQ.cpp:33-33 | Keeps the entries in front of the restored tail. |
| MemQueues.SQ.ReplyToLoadRequest | src/SQ/SQ.cpp:131-164 | The reply is valid exactly when the last visible store that has an unknown or the same address is one at that address with its value ready, and then it is that value. |
| MemQueues.SQ.ScanYounger | src/SQ/SQ.cpp:74-93 | The scan finds the oldest younger store at the same known address and the oldest younger one without an address, if there are any. |
| MemQueues.SQ.PlanDataForward | src/SQ/SQ.cpp:63-95 | The notice for an arriving value; none as long as the address is unknown. |
| MemQueues.SQ.PlanAddressForward | src/SQ/SQ.cpp:97-129 | The notice for an arriving address; none as long as the value is missing. |
| MemQueues.SQ.CanDispatchLoad | src/SQ/SQ.cpp:166-182 | A load is held back exactly by an older uncommitted store known to write its address. |
| StoreQueueTick.Tick | src/SQ/SQ.cpp:188-243 | A whole tick of the ring, applied in the program's order, is the specified step on the sequence of stores. |
| StoreQueueTick.TickKeepsOrder | src/SQ/SQ.cpp:188-243 | Every legal tick keeps the stores in age order with the committed ones in front, also when issue or squash, dispatch and commit coincide. |
| QueueLaws.StoresAfterTick | src/SQ/SQ.cpp:188-243 | After a tick each store of the queue has the value, the address and the commit that arrived for it and is otherwise unchanged; the first one has left if it was sent, a new one is last, and a squash has cut the queue off. |
| StoreQueueRun.TickIsLegal | src/SQ/SQ.cpp:188-243 | Rename stage and memory arbiter supply all that a legal tick asks for: the youngest tag at issue, the oldest at commit, a tail behind all committed stores at a squash, and only committed stores leaving. |
| StoreQueueRun.TickKeepsAgreement | src/SQ/SQ.cpp:188-243 | After every tick of both, the uncommitted stores of the queue are again exactly the stores in flight, in order, and the tails agree. |
| StoreQueueRun.QueueHoldsTheStores | src/CPU/CPU.cpp:225-248 | So in every reachable state, from reset. |
| StoreDrain.CommittingIsComplete | src/ROB/ROB.cpp:130-147 | A store that commits is the oldest uncommitted one of the queue and has its address and its value, because only such stores are reported. |
| StoreDrain.PassedAfterTick | src/SQ/SQ.cpp:188-243 | Every tick: the stores that have left, and behind them the committed ones of the queue, are those that have committed, each once, unchanged since. |
| StoreDrain.BackedAfterTick | src/ROB/ROB.cpp:130-147 | Every tick: no store in flight is ready to commit without its address and its value. |
| StoreDrain.TickIsSafe | src/StaticArbiter/StaticArbiter.cpp:169-186 | In every run the arbiter reads address and value of a leaving store only when both are there, so the exceptions are never raised. |
| StoreDrain.StoresLeaveInProgramOrder | src/SQ/SQ.cpp:188-243 | In every run from reset, the stores that have left the queue are the first of those that have committed, in program order, once each, and leave the flat memory that these would leave. |
| StoreDrain.LastStoreIsThere | src/DCache/DCache.cpp:111-168 | Of the stores that have left, the last one can be read back. |
| StoreDrain.TickBoth | src/StaticArbiter/StaticArbiter.cpp:169-186 | Store queue and cache as objects: what leaves the queue is one request to the memory, with the address, width and value of the oldest store. |
| StoreDrain.Machine.Tick | src/CPU/CPU.cpp:225-248 | In every run the memory a program sees is the flat memory after the stores that have left. |
| StoreDrain.AStoreLeaves | src/SQ/SQ.cpp:219-227 | A run from reset in which a store leaves in the tick of its commit. |
| MemQueues.LQ.ApplyStoreForward | src/LQ/LQ.cpp:120-140 | Exactly the loads that take the notice are given its value. |
| MemQueues.LQ.WriteValueIfFetching | src/LQ/LQ.cpp:47-53 | A value is written to a place only if the load there has the given tag and is fetching. |
| LoadQueueTick.Tick | src/LQ/LQ.cpp:142-199 | A whole tick of the ring, with issue, notices, address, sending, retirement, reply, broadcast and squash in the program's order, is the specified step on the sequence of loads. |
| QueueLaws.LoadsAfterTick | src/LQ/LQ.cpp:142-199 | After a tick the first load has left if it retires, a new one is last, without address and waiting, a squash has cut the queue off, and each other load is changed by what arrived for it alone. |
| QueueLaws.LoadAfterTick | src/LQ/LQ.cpp:152-193 | What a tick does to a load that no notice reaches: its address, its value, whether it waits, has been sent or has its value, and whether it has been broadcast. |
| QueueLaws.NoticeFills | src/LQ/LQ.cpp:35-45 | A load that takes a notice has its value and has yet to broadcast it; any other is left alone. |
| LoadQueueRun.RetiresCommitted | src/LQ/LQ.cpp:175-181 | The test on tags by which the first load leaves the queue is exact: it leaves if and only if it has committed. |
| LoadQueueRun.SpansAfter | src/ROB/ROB.cpp:7-17 | It is, because load queue and reorder buffer together never span more allocations than tags can tell apart, also when loads pile up behind squashes or a halt enters the full buffer. |
| LoadQueueRun.SquashKeepsByAge | src/LQ/LQ.cpp:195-198 | The restored tail keeps exactly the loads that are not younger than the named instruction. |
| LoadQueueRun.TickKeepsAgreement | src/LQ/LQ.cpp:142-199 | After every tick of both, the queue holds again the committed loads that have not left and then the loads in flight, in order, and the tails agree. |
| LoadQueueRun.YoungerLoadIsInFlight | src/DynamicArbiter/DynamicArbiter.cpp:131-147 | A load of the queue whose tag matches and is younger than that of an instruction in flight is itself in flight, although tags of committed loads match as well. |
| LoadQueueRun.QueueHoldsTheLoads | src/CPU/CPU.cpp:225-248 | In every run from reset the queue holds the committed loads that have not left and then the loads in flight, and the test for leaving is exact. |
| LoadReplies.StepKeepsSound | src/LQ/LQ.cpp:142-199 | In every tick a load that is fetching where the outstanding request was sent from is the one that asked. |
| LoadReplies.RepliesGoAstray | src/LQ/LQ.cpp:170-186 | A reply reaches a load that did not ask for it if and only if the load that is sent in the tick of the reply has the place and the tag it names. |
| LoadReplies.AReplyGoesAstray | src/LQ/LQ.cpp:170-186 | A run from the empty queue in which that happens, and the load takes the value of another address. |
| LoadReplies.RepliesAreLost | src/include/DCache.hpp:68-76 | A load waits for ever if and only if its reply is there in the tick of a squash that covers the reply and keeps the load. |
| LoadReplies.NamedLoadIsLost | src/include/DCache.hpp:68-76 | That is the load which the squash itself names. |
| LoadReplies.AReplyIsLost | src/LQ/LQ.cpp:195-198 | A run in which that happens. |
| LoadReplies.SentLoadLosesValue | src/LQ/LQ.cpp:170-174 | A load that is given its value in a tick keeps it exactly if it is not sent in that tick. |
| LoadReplies.ServedAndSent | src/StaticArbiter/StaticArbiter.cpp:187-206 | A load that is sent is served by an uncommitted store in the same tick only if the address of that store arrives in this tick and its value was there before. |
| LoadReplies.SentLoadIsOverlooked | src/DynamicArbiter/DynamicArbiter.cpp:131-147 | The violation detector raises no request for such a load. |
| LoadReplies.ForwardedValueIsOverwritten | src/LQ/LQ.cpp:170-174 | A store and a load for which that happens. |
| ForwardingTick.ValueNoticeReaches | src/CPU/CPU.cpp:163-177 | With all values and the address of a tick planned on the queue at its start: a value's notice is taken exactly by the loads that the queue after all events answers with this store, unless an address arrives at the same store or at a younger one they see. |
| ForwardingTick.AddressNoticeReaches | src/CPU/CPU.cpp:178-188 | The address's notice is taken exactly by the loads answered with its store, unless the value arrives in the same tick. |
| ForwardingTick.NoticeServes | src/LQ/LQ.cpp:120-140 | Whatever the event, a load that takes a notice is answered with that store, and that value, by the queue after all events. |
| ForwardingTick.NewAnswersAreServed | src/CPU/CPU.cpp:163-188 | The exact condition for a miss: a load newly answered by a store is served if and only if no address arrives at a younger store it sees, nor at this one together with its value. |
| ForwardingTick.BothTogetherAreMissed | src/CPU/CPU.cpp:163-188 | A tick in which a store's value and address arrive together, both notices are silent and the load behind it is missed. |
| ForwardingTick.NoticesDeliver | src/LQ/LQ.cpp:142-151 | Applying all notices one after the other gives a load the value of the one store that serves it, or leaves it alone. |
| ForwardingTick.OwnAddressIsAnswered | src/LQ/LQ.cpp:152-169 | A load whose own address arrives asks the queue at the start of the tick, so it misses exactly the values that arrive with it. |
| ForwardingTick.Forward | src/LQ/LQ.cpp:142-170 | Both queues as objects: after plans, replies, notices and writes every load holds exactly what these conditions say. |
| MemoryArbiter.LoadDetect | src/LQ/LQ.cpp:83-99 | The scan finds the oldest load that has its address and has not been sent. |
| MemoryArbiter.Arbitrate | src/StaticArbiter/StaticArbiter.cpp:165-208 | A store goes exactly when it is the oldest and has committed or commits now; otherwise the oldest waiting load, exactly when no older uncommitted store is known to write its address and no squash covers it. |
| LoadQueueRun.OldestIsSelected | src/LQ/LQ.cpp:83-99 | With the loads in flight in the queue, the load that is selected is the oldest of them that has its address and has neither been sent nor been given a value. |
| MemoryArbiter.LeavingStoreIsCommitted | src/StaticArbiter/StaticArbiter.cpp:169-186 | The first store may leave if and only if it has committed by the end of the tick, which is what the tick of the store queue asks for. |
| MemoryArbiter.LeavingLoadIsNotHeldBack | src/SQ/SQ.cpp:166-182 | A load sent to the cache is none that an uncommitted store could have answered. |
| FlushArbiter.Arbiter.Receive | src/DynamicArbiter/DynamicArbiter.cpp:10-38 | Compaction and insertion put a request behind the older ones; with four pending it reports the overload and changes nothing. |
| FlushArbiter.InsertKeepsOrder | src/DynamicArbiter/DynamicArbiter.cpp:23-37 | Live requests stay sorted by age. |
| FlushArbiter.InsertMultiset | src/DynamicArbiter/DynamicArbiter.cpp:33-37 | Exactly the new request is added. |
| FlushArbiter.AcceptedIsOldest | src/DynamicArbiter/DynamicArbiter.cpp:40-53 | The accepted request is the oldest one pending. |
| FlushArbiter.AcceptedDrains | src/DynamicArbiter/DynamicArbiter.cpp:55-63 | Clearing by the accepted squash leaves nothing pending. |
| FlushArbiter.ClearKeepsOlder | src/DynamicArbiter/DynamicArbiter.cpp:55-63 | It clears exactly the requests that are not older, wherever they come from. |
| FlushArbiter.TickDrains | src/DynamicArbiter/DynamicArbiter.cpp:65-156 | After a tick exactly the requests of that tick are pending, at most three, oldest first. |
| FlushArbiter.Arbiter.DetectViolation | src/DynamicArbiter/DynamicArbiter.cpp:120-155 | The scan raises a request for the first violating load, and for no other. |
| FlushArbiter.Arbiter.Tick | src/DynamicArbiter/DynamicArbiter.cpp:65-156 | One tick accepts the request that the scan ends with, clears by it and inserts the new ones; it overloads exactly when more than four would be pending. |
| Booth.DigitsAreSigned | src/MUL/MUL.cpp:31-35 | The sixteen windows of three bits are the digits of the multiplier read as a signed number. |
| Booth.RowIsDigit | src/MUL/MUL.cpp:37-63 | A row, complemented for a negative digit, together with its correction bit is the digit times the multiplicand modulo 2^64. |
| Booth.FixupsCorrect | src/MUL/MUL.cpp:65-77 | The fix-ups turn the signed product into the product of the operation. |
| Booth.BoothRows | src/MUL/MUL.cpp:23-78 | The nineteen rows add up to the product of the operation modulo 2^64. |
| Booth.CompressKeepsSum | src/MUL/MUL.cpp:13-20 | A 3:2 compressor keeps the sum modulo 2^64. |
| Booth.CompressRows | src/MUL/MUL.cpp:80-105 | So does the tree of seventeen compressors. |
| Booth.ExtractIsMultiply | src/MUL/MUL.cpp:122-135 | The low or high word of any number congruent to the product is the result of section 7.1. |
| RiscV.MultiplicationLaw | src/MUL/MUL.cpp:122-135 | The low word together with each of the three high words is the whole product, of two signed, of a signed and an unsigned, and of two unsigned operands. |
| Multiplier.MultiplyUnit.CalculateMulRes | src/MUL/MUL.cpp:107-136 | The result goes into the first free slot. |
| Multiplier.MultiplyUnit.BuildCdb | src/CDB/CDB.cpp:24-38 | The result in the buffer goes over the bus unless a squash covers it. |
| Multiplier.MultiplyUnit.Flush | src/MUL/MUL.cpp:181-192 | A squash drops finished results that are not older and staged jobs that are younger. |
| Multiplier.MultiplyUnit.Tick | src/MUL/MUL.cpp:193-223 | At most one slot is ever occupied after a tick, and it holds the exact result of its job; the overflow assertion is unreachable. |
| Multiplier.DeliveryIsExact | src/MUL/MUL.cpp:193-223 | What is delivered at tick k is the dispatch of tick k - 3 if no squash since covered it, and nothing else. |
| Multiplier.SurvivesExactly | src/MUL/MUL.cpp:181-192 | A dispatch survives exactly if no squash of the four ticks covers it, in its stages one that is older than it, as a result one that it is not older than. |
| Multiplier.Run | src/MUL/MUL.cpp:193-223 | For a whole run: each surviving dispatch is delivered once, in order, with its own tag and the value of section 7.1. |
| Folding.Refold | src/BPU/BPU.cpp:18-27 | The loop over chunks computes the fold of the H youngest outcomes. |
| Folding.FoldXor | src/BPU/BPU.cpp:18-27 | Folding distributes over exclusive or. |
| Folding.FoldOfBit | src/BPU/BPU.cpp:69-82 | A bit at position n folds onto position n modulo W. |
| Folding.StepIsRefold | src/BPU/BPU.cpp:437-477 | One rotation and two bits turn the fold of a history into the fold of the shifted history, for every H and W, also when W divides H. |
| BranchHistory.ViewFollows | src/BPU/BPU.cpp:408-477 | The same for the 64-bit register, although its oldest outcome is lost. |
| BranchHistory.StepLaw | src/BPU/BPU.cpp:408-412 | The outcome of a fetch becomes the lowest bit of the history and the older ones move up by one; a squash brings back what was saved. |
| BranchHistory.BPU.ShiftGHR | src/BPU/BPU.cpp:408-412 | All twelve views stay the folds of the history when an outcome is shifted in. |
| BranchHistory.BPU.RecoverFolds | src/BPU/BPU.cpp:482-489 | Recovery makes every view the fold of the restored history. |
| BranchHistory.BPU.Tick | src/BPU/BPU.cpp:590-597 | A fetch saves the history and shifts its prediction in, a squash restores; the views match in every reachable state. |
| FetchHistory.StepRemembers | src/BPU/BPU.cpp:590-597 | Every tick keeps under the id of every instruction that is alive, in flight or in front, the history from before its own outcome. |
| FetchHistory.FetchShifts | src/BPU/BPU.cpp:590-597 | A fetch shifts in the outcome predicted for it; without one the history stays. |
| FetchHistory.SquashRestoresHistory | src/BPU/BPU.cpp:662-681 | In every run a squash brings back the history that the predictor had in the tick that fetched the named instruction under this id, whatever happened since. |

## Left out

- The instruction path (fetch unit, instruction cache and memory, fetch queue, decoder): only the checkpoint ids in its three queues appear; whether the fetch unit goes on and whether a word has arrived are inputs.
- Equivalence of the whole pipeline with the instruction set, and completeness of the detection of memory-order violations: the detector only looks at loads that have started, and forwarding compares exact addresses without widths.
- Dispatch: which instruction of a station has its operands, and whether a station or a queue has room, are inputs. Of loads the cache takes any request; which one the memory arbiter selects is proved apart from it.
- Values and ready bits of the physical registers: they do not influence which registers are mapped, pending or free.
- Predictions themselves (tagged tables, target buffer, return-address stack): heuristics without a promise of correctness.
- Arithmetic, address and branch units: what they compute are single expressions, and inputs here.
- Counters, debug output, image loading and the main loop's halt condition, apart from the latch of a committed halt.
- Cache geometries other than the default one of 1024 sets: the sizes are constants of the build.
- MemoryHierarchy.Hierarchy.Run: requests that straddle a line are not offered, because the program asserts that there are none.
- RenameCore.StepKeepsInv: assumes of a squash that it names an instruction in flight, which SquashLoop.LoopCloses derives for the requests of the arbiter; completions with stale tags are allowed.
- SquashLoop.LoopCloses: assumes that a branch or jump that raises a request is in flight and not completed, and that a violating load and its store are in flight, which RunningUnits.RaisersRun derives.
- ArbiterLaws.BranchGoesToItsTarget: assumes that no other report of the tick carries the tag of the branch; where the fetch unit then goes is not modelled.
- ArbiterLaws.JumpGoesToItsTarget: assumes the same for the jump.
- ResultUnits.WorkStaysHeld: assumes that the multiplier, the divider, the load queue and the store queue report no instruction that is still in a station or buffer of the other three units.
- LoadReplies.RepliesAreLost: takes retirement, squashes and the duration of a miss as inputs; LoadQueueRun says which loads retire and which ones a squash keeps.
- StoreDrain.StoresLeaveInProgramOrder: assumes that value and address of a store arrive once, that no unit but the store queue reports a store, and of stores that leave that they do not straddle a line.
- FetchHistory.SquashRestoresHistory: does not model the return-address stack that the same checkpoint restores.
- MemoryArbiter.Arbitrate: does not model the exceptions that reading an address or a value that is not there would raise; StoreDrain.TickIsSafe shows that stores raise none.
- StoreQueueRun.TickIsLegal: assumes that a store is issued only when its queue has a free place, which is part of the room that the rename stage is told of.
- ForwardingTick.Forward: assumes that values and addresses arrive once, at stores that have not committed, and the address of a load once.
