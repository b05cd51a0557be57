# Verification of the PIM backend and the PID-Comm relocation kernels

A Dafny model of the algorithms in this repository whose correctness is not visible from any single function: the
in-place relocation kernels of PID-Comm, MRAM access through a program on the DPU, the bit-order configuration, the
checkpoint format, the MRAM address map and its SIMD transpose, and the state that the host keeps over whole runs.
`dafny verify dfyconfig.toml` checks everything.

## What is modelled

| file | subject |
|---|---|
| `Arithmetic.dfy` | products, quotients and remainders |
| `Bytes.dfy` | bytes, little-endian numbers, overwriting a piece of a byte sequence |
| `Blocks.dfy` | block layouts, the slot maps of the kernels with C's unsigned wrap-around, what a relocation is, and which ones move nothing |
| `Tasklets.dfy` | one relocation pass as a state machine: tasklets that read, wait, write and wait, byte by byte and in any order, over one shared memory |
| `Scheduling.dfy` | progress and deadlock of such a pass, and the pass run in place on an array |
| `Kernels.dfy` | the branches of the eight kernels as plans of passes, and what the plans add up to |
| `TwoPhases.dfy` | the kernels with two phases: when the phases add up to one relocation |
| `Destinations.dfy` | where a launch of each of the eight kernels puts every block, what it leaves alone, and when it may be made |
| `Barriers.dfy` | passes in place without barriers: when they are harmless, and how the others lose data |
| `Planner.dfy` | the loops that compute `num_comm_dpu` and `num_comm_rg` |
| `DpuDevice.dfy` | a DPU: its memories, and the assumed behaviour of the program that copies between WRAM and MRAM |
| `MramProgram.dfy` | one MRAM access: patch, save, chunked boots, restore |
| `MramTransfer.dfy` | the bounce buffer for unaligned transfers |
| `MramRank.dfy` | the loops over a rank, and the alignment, range and busy gate |
| `RunContext.dfy` | launch, poll, boot, disable and status, next to the DPUs that they are about |
| `BitConfig.dfy` | syndromes, reciprocals and the two bit-shuffling directions |
| `Checkpoint.dfy` | size function, serializer and deserializer of DPU contexts |
| `AddressMap.dfy`, `Transpose.dfy` | physical MRAM addresses, the byte interleaving, and their agreement |
| `Drain.dfy` | stop-and-step draining of the pipeline |
| `CommandRing.dfy` | the ring buffer of the last commands |
| `Profiler.dfy` | the two-pass patcher for profiling |

The main results, in one line each:

* Under every schedule of the tasklets, the in-place relocation with barriers puts every block into its slot and
  changes nothing else, and some tasklet can always move until all are done.
* Without barriers, in place, the result is right for all memories and schedules exactly if no block moves; the
  all-reduce launches such passes, and a run that loses data is given.
* Every launch of the eight kernels puts every block where its arguments say, with the one exception of the next line;
  it may be made exactly if it gets whole groups and, in place, has barriers throughout.
* The two phases of the two-phase kernels add up to the intended relocation, for all memories, exactly if little
  enough is left over, or the second phase moves no block, or there is nothing to move.
* The boot loop moves a range as one bulk copy would, in exactly the planned transfers, and restores the DPU; it fails
  exactly if a run of the program on the DPU faults, for one DPU as well as for a whole rank behind the gate.
* An unaligned write keeps its neighbours, for all memories, exactly if one of its two ends is aligned.
* `cpu2dpu` and `dpu2cpu` undo each other exactly if the six looked-up indices meet a simple condition, and then every
  bit of every word goes where the query's answer tells.
* Every serialized context reads back, as itself if its sizes are exact; no strict prefix does; and whatever reads
  back is written as the same bytes exactly if its header asks for fewer than 65536 instructions.
* A write to the MRAMs of a rank delivers to every DPU its own data exactly if each transfer bounces, or is that of
  entry 0, or agrees with entry 0.
* MRAM addresses are injective, and their image is exactly the addresses below 2^33 whose bit 17 is clear.
* Over any run the counter of running DPUs is right, and when it is zero no enabled DPU runs unless it is in fault; a
  poll at any time makes the record of running and faulty DPUs true.
* The planner's two numbers count the DPUs of a group: all of them, and those among the first eight.

## Assumptions

* The program on the DPU is known by a contract only (`DpuDevice.Dpu.Boot`): every boot moves as many bytes as WRAM
  word 6 says between the words behind the context and MRAM at the cursor, and advances the cursor.
* A barrier releases its participants together once as many tasklets have arrived as take part in the pass.
  Tasklets are modelled from the first read on; the barrier and the heap reset in front of it touch no data.
* Address arithmetic of the kernels does not wrap around, because the regions fit into the memory. The offsets
  inside a group are computed with unsigned wrap-around, as in C.
* The program also honours a cursor that is not a multiple of 8, although the precondition at
  `api/src/dpu_memory.c:690-694` asks for aligned offsets. An unaligned write makes it use one, to fetch the block
  behind the data, and the "only if" of `MramTransfer.NeighboursSurvive` depends on what it then delivers.
* `max_words_per_dpu` is a global that all tasklets set. Within a pass they set it to the same number, but a
  two-phase kernel sets it again between its phases. Blocks of length 0 make the first phase pass no barrier
  (a total size of at least one element for each block of the second phase, but less than one for each of the
  first); a late tasklet can then reset it while the second phase runs. Each pass is modelled with the number
  that its tasklets set at its beginning.
* The loop that pads the cache behind the last words of a block never runs, since it begins where it ends.
* Commands that copy between the host and a DPU's IRAM or WRAM fail only as their guards say, and fault counters are
  part of the model, not of the source. Hosts are little-endian.
* A step of the debug interface stops at most one thread and starts none, and after finitely many idle steps it
  stops one. A hardware command that fails has had no effect.
* A 32-bit host number that counts DPUs or axes does not overflow; sizes in checkpoints and MRAM ranges do so where
  the code lets them, and the model says when.

## Where the code does less than it could

* `api/src/dpu_memory.c:624` fetches the block behind the data from an address that is too high by the
  misalignment. `MramTransfer.Written` says what MRAM then holds, and `MramTransfer.NeighboursSurvive` when that
  matters. Behind `dpu_copy_to_mrams` it never does, because the gate asks for aligned offsets and sizes.
* A transfer that needs no bounce buffer uses entry 0 of the transfer matrix for every DPU
  (`api/src/dpu_memory.c:648`, `774`). The contracts of `MramRank.Rank` name the buffer that is really used,
  `MramRank.Rank.OwnDataArrives` says exactly when every DPU gets its own data, `MramRank.Rank.UnlikeBuffers` is a
  transfer in which one does not, and `MramRank.Rank.SingleEntry` says when a matrix with a single entry can be used.
* The range check adds two 32-bit numbers (`MramRank.AdmittedMeansInside`, `MramRank.WrappedIsAdmitted`). A range
  that it accepts because its end wraps around makes the program on the DPU fault (`MramRank.Rank.WriteMrams`).
* `pidcomm_lib/support/commlib.c:434-446` and `459-470` launch the two-phase and the short rotation with their target
  at their start, also when the first axis is not selected, which is the branch without barriers. Unless the DPU's
  number makes the rotation the identity, data can be lost (`Barriers.AllReduceInPlace`, `Barriers.AllReduceLosesData`).
* The condition of the `num_comm_rg` loop looks at `len` only, so it reads past the last axis exactly if there are
  fewer than eight DPUs (`Planner.NumCommRg`, `Planner.SingleShortAxis`).
* The second phase of the two-phase kernels uses blocks twice as long only if little enough data is left over
  (`TwoPhases.DoubleBlocks`); otherwise blocks can end up in the wrong place (`TwoPhases.TwoPhasesCompose`,
  `TwoPhases.TooMuchLeftOver`).
* Two-phase kernels with a number of blocks that 4 does not divide never end (`Kernels.TwoPhasesHang`).
* A context keeps its number of instructions in 16 bits (`api/include/api/dpu_types.h:96`), while the reader of a
  checkpoint reads as many as a 32-bit word says (`api/src/dpu_debug.c:318`, `336-342`). Files with more come back
  with a wrong size and are written as other files (`Checkpoint.ParsedIsImage`, `Checkpoint.TooManyInstructions`).
* The 16-bit counter of call sites wraps around in every mode, and the tables are then too short
  (`Profiler.FitsExactly`, `Profiler.CounterWraps`).

## Model

| member | source | states |
|---|---|---|
| `Blocks.OffsetIsModular` | pidcomm_lib/data_relocate_clockwise/data_relocate_clockwise.c:108-113 | for group sizes 1, 2, 4 and 8 the unsigned wrap-around in the slot expressions never shows: all of them are true residues, also when the difference is negative |
| `Blocks.SlotIsBijection` | pidcomm_lib/data_relocate_clockwise_short/data_relocate_clockwise_short.c:105-111 | the slot map permutes the blocks of every group; an explicit inverse works on both sides |
| `Blocks.SlotStaysInside` | pidcomm_lib/data_relocate_reverse_clockwise/data_relocate_reverse_clockwise.c:101-109 | a block of the region is never sent outside the region, whatever the number of whole groups |
| `Blocks.RelocatedIsUnique` | pidcomm_lib/data_relocate_clockwise/data_relocate_clockwise.c:88-119 | what is meant by a relocation determines every byte of the result |
| `Blocks.RelocationExists` | pidcomm_lib/data_relocate_clockwise/data_relocate_clockwise.c:88-119 | every memory has a relocated one, also if the regions overlap: no byte of the target is claimed by two blocks |
| `Blocks.CounterclockwiseUndoesClockwise` | pidcomm_lib/data_relocate_counterclockwise/data_relocate_counterclockwise.c:76-108 | the counterclockwise kernel restores the whole memory after the clockwise one, for every block count and DPU number, and the other way round |
| `Blocks.ReverseIsInvolution` | pidcomm_lib/data_relocate_reverse_clockwise/data_relocate_reverse_clockwise.c:81-114 | the reflecting kernel run twice restores the whole memory |
| `Blocks.IncrementalIsCopy` | pidcomm_lib/data_relocate_incremental_counterclockwise/data_relocate_incremental_counterclockwise.c:94-103 | the rotation of the incremental kernel is the identity: its result is that of the plain copy |
| `Tasklets.ChunkLength` | pidcomm_lib/data_relocate_clockwise/data_relocate_clockwise.c:82-104 | every chunk lies inside its block and has between 1 and 2048 bytes |
| `Tasklets.InitInv` | pidcomm_lib/data_relocate_clockwise/data_relocate_clockwise.c:72-89 | the invariant over memory, caches and barrier phases holds before the first step |
| `Tasklets.ReadsSeeTheOriginal` | pidcomm_lib/data_relocate_clockwise/data_relocate_clockwise.c:95-106 | in every reachable state, no byte that is still to be read has been overwritten, although source and target are the same region |
| `Tasklets.ReleaseInStep` | pidcomm_lib/data_relocate_clockwise/data_relocate_clockwise.c:106-118 | when the last tasklet arrives, all participants are in the same row of blocks, chunk and half, so they go on together |
| `Tasklets.StepInv` | pidcomm_lib/data_relocate_clockwise/data_relocate_clockwise.c:88-119 | every step of every tasklet keeps the invariant: each slot holds its old byte until the right tasklet writes the new one, and memory outside is untouched |
| `Tasklets.RunInv` | pidcomm_lib/data_relocate_clockwise/data_relocate_clockwise.c:88-119 | the invariant holds after any schedule of any length |
| `Tasklets.FinishedMeansRelocated` | pidcomm_lib/data_relocate_clockwise/data_relocate_clockwise.c:72-121 | once all tasklets are done, every block is in its slot byte for byte, and nothing else has changed |
| `Scheduling.StepWork` | pidcomm_lib/data_relocate_clockwise/data_relocate_clockwise.c:88-119 | every step brings a pass closer to its end, so every fair run ends |
| `Scheduling.SomeoneCanMove` | pidcomm_lib/data_relocate_reverse_clockwise/data_relocate_reverse_clockwise.c:63-116 | no deadlock: in every reachable state of a pass whose block count is a multiple of its tasklets, some tasklet can move until all are done |
| `Scheduling.ShortRowBlocks` | pidcomm_lib/data_relocate_reverse_clockwise/data_relocate_reverse_clockwise.c:63-116 | otherwise a pass with barriers never ends, under any schedule, also where the regions may interfere or groups are not whole: the branch conditions on `num_comm_dpu` are needed |
| `Tasklets.RunLockstep` | pidcomm_lib/data_relocate_clockwise/data_relocate_clockwise.c:88-119 | after any schedule of a pass with barriers, wherever its blocks go, all tasklets are in the same row of blocks, chunk and half |
| `Scheduling.RunPass` | pidcomm_lib/data_relocate_clockwise/data_relocate_clockwise.c:72-121 | the pass on an array, under any scheduler, terminates with the relocated memory |
| `Kernels.LeftoverIsChunkLength` | pidcomm_lib/data_relocate_clockwise/data_relocate_clockwise.c:95-100 | the leftover of the last chunk, which the kernels count in elements, is the length of that chunk in bytes, and never zero |
| `Kernels.BlockBytesIsLargest` | pidcomm_lib/data_relocate_clockwise/data_relocate_clockwise.c:73 | a block is the largest number of whole elements of which all blocks fit into the data |
| `Kernels.GroupedPlanIsStartable` | pidcomm_lib/data_relocate_counterclockwise/data_relocate_counterclockwise.c:59-168 | the branches for multiples of 8 and for 4 and 2 blocks may run in place, or between disjoint regions |
| `Kernels.ShortPlanIsStartable` | pidcomm_lib/data_relocate_clockwise_short/data_relocate_clockwise_short.c:66-165 | the kernels with groups of `num_comm_rg` may run in place in their branch with barriers, and between disjoint regions otherwise |
| `Kernels.ReversePlanIsStartable` | pidcomm_lib/data_relocate_reverse_clockwise/data_relocate_reverse_clockwise.c:63-271 | the same for all branches of the reflecting kernel, including the one whose tasklets stride by 8 / `num_comm_rg` and the one for 4 or 2 blocks, and when it does nothing |
| `Kernels.TwoPhasePlanIsStartable` | pidcomm_lib/data_relocate_modified_reverse_clockwise/data_relocate_modified_reverse_clockwise.c:64-160 | if the final target is disjoint from the source, or is the source and the second phase has barriers, both phases may run if and only if the block count is divisible by 4 |
| `Kernels.TwoPhasesHang` | pidcomm_lib/data_relocate_modified_reverse_clockwise/data_relocate_modified_reverse_clockwise.c:119-160 | for every other block count a phase with barriers never ends, for any memory it stays inside and under any schedule, unless its blocks are empty: the second one if the count is even and both phases have two tasklets, and otherwise the first |
| `Kernels.EightsArrive` | pidcomm_lib/data_relocate_clockwise/data_relocate_clockwise.c:72-121 | after the kernel, block t of a group of eight is in slot (t - d), (t + d), (d - t) or t mod 8, and no byte outside the target region has changed |
| `Destinations.KernelsDeliver` | pidcomm_lib/data_relocate_clockwise_short/data_relocate_clockwise_short.c:66-165 | all launches of all kernels, branch by branch: every byte of block t arrives in the slot that a closed form of the arguments names, for all memories, if and only if the launch has a single phase or the phases add up |
| `Destinations.OtherBytesStay` | pidcomm_lib/data_relocate_reverse_clockwise/data_relocate_reverse_clockwise.c:63-271 | no launch changes a byte outside its target region, and outside the source region if it has two phases |
| `Destinations.NothingPlanned` | pidcomm_lib/data_relocate_modified_clockwise/data_relocate_modified_clockwise.c:69-161 | which launches handle no block, and which have two phases |
| `Destinations.StartsExactly` | pidcomm_lib/data_relocate_reverse_clockwise_short/data_relocate_reverse_clockwise_short.c:64-161 | with blocks that are not empty, a launch may be made between disjoint regions if and only if it gets whole groups, and in place if and only if it also has barriers throughout |
| `Kernels.DoneTogether` | pidcomm_lib/data_relocate_modified_clockwise/data_relocate_modified_clockwise.c:112-130 | a tasklet that leaves a pass with barriers knows that all writes of the pass are done, so no read of the next phase can see an unfinished one |
| `TwoPhases.DoubleBlocks` | pidcomm_lib/data_relocate_modified_clockwise/data_relocate_modified_clockwise.c:119-130 | the second phase's blocks are exactly two of the first phase's if and only if the leftover is less than one element for each second-phase block; otherwise they are one element longer |
| `TwoPhases.TwoPhasesCompose` | pidcomm_lib/data_relocate_modified_reverse_clockwise/data_relocate_modified_reverse_clockwise.c:64-160 | in both two-phase kernels, in place or not: the phases send every block t to 4*(t/4) + 2*((d/4 - t/2) mod 2) + ((d - t) mod 2), or leave it without rotation, for all memories, if and only if little is left over, or the second phase moves no block, or the blocks are empty |
| `TwoPhases.TooMuchLeftOver` | pidcomm_lib/data_relocate_modified_reverse_clockwise/data_relocate_modified_reverse_clockwise.c:64-160 | a launch of that kernel, and a memory for which the phases do not send every block to its slot |
| `Kernels.RunPlan` | pidcomm_lib/data_relocate_modified_clockwise/data_relocate_modified_clockwise.c:69-157 | running a plan on an array performs its relocations one after the other |
| `Barriers.InPlaceWithoutBarriers` | pidcomm_lib/data_relocate_clockwise_short/data_relocate_clockwise_short.c:121-165 | a pass in place without barriers gives the relocation for all memories and under every schedule that ends, if and only if no block moves or there is nothing to move |
| `Barriers.AllReduceInPlace` | pidcomm_lib/support/commlib.c:433-470 | the launches of the all-reduce that take the branch without barriers: right for all memories and schedules if and only if the rotation is off, or the number of the DPU's group is a multiple of the group size, or the blocks are empty |
| `Barriers.AllReduceLosesData` | pidcomm_lib/data_relocate_modified_reverse_clockwise/data_relocate_modified_reverse_clockwise.c:164-211 | a launch, a memory and a schedule from the initial state to the end after which the memory is not the relocated one |
| `Planner.NumCommDpu` | pidcomm_lib/support/commlib.c:88-92 | the loop computes the number of all DPUs that differ from DPU 0 along selected axes only |
| `Planner.SelectedCountsMembers` | pidcomm_lib/support/commlib.c:88-92 | that number is the product of the selected axes |
| `Planner.MembersByCoordinates` | pidcomm_lib/support/commlib.c:88-106 | a DPU belongs to the group of DPU 0 exactly if its coordinates along all axes that are not selected are zero |
| `Planner.FactorCountsMembers` | pidcomm_lib/support/commlib.c:99-106 | for axes that tile eight DPUs, the factor is the number of indices 0 to 7 whose unselected coordinates are all zero |
| `Planner.FactorDivides` | pidcomm_lib/support/commlib.c:99-106 | the factor divides both 8 and `num_comm_dpu` |
| `Planner.PowersOfTwoTile` | pidcomm_lib/support/commlib.c:99-106 | power-of-two axes with at least eight DPUs do tile eight DPUs |
| `Planner.NumCommRg` | pidcomm_lib/support/commlib.c:99-106 | the loop stays inside the axes exactly if there are at least eight DPUs, and then counts the members of the group |
| `Planner.PlanFitsKernels` | pidcomm_lib/support/commlib.c:80-106 | what the planner computes is what the kernels with groups of `num_comm_rg` need, between disjoint regions and in place in their branch with barriers |
| `Planner.SingleShortAxis` | pidcomm_lib/support/commlib.c:99-106 | with a single axis of two DPUs the loop reads past it |
| `DpuDevice.Dpu.CopyToWram` | api/src/dpu_memory.c:154-170 | the words are written if the DPU is enabled and the range fits, and the status says which of these failed |
| `DpuDevice.Dpu.CopyFromWram` | api/src/dpu_memory.c:189-205 | the same for reading |
| `DpuDevice.Dpu.Boot` | api/src/dpu_memory.c:777-790 | the assumed behaviour of one boot of the program on the DPU, faults included |
| `MramProgram.PlannedTransfersTile` | api/src/dpu_memory.c:757-861 | the planned transfers are non-empty and consecutive, cover the range exactly, and only the final one is marked as the last |
| `MramProgram.ChunkFacts` | api/src/dpu_memory.c:731-738 | a chunk is the whole range, or it fills WRAM behind the context words |
| `MramProgram.WriteContext` | api/src/dpu_memory.c:764-771 | the context words hold offset, size and marker, and nothing behind the context changes |
| `MramProgram.FirstTransfer` | api/src/dpu_memory.c:764-796 | the first boot makes the first planned transfer |
| `MramProgram.NextTransfer` | api/src/dpu_memory.c:798-861 | a resumed boot makes a transfer at the cursor, with the size and marker in force |
| `MramProgram.WholeChunks` | api/src/dpu_memory.c:798-827 | the loop makes one planned transfer for each further whole chunk, with the marker set in the last iteration only if nothing is left over |
| `MramProgram.RunTransfers` | api/src/dpu_memory.c:757-861 | exactly the planned transfers happen, and together they are one bulk copy |
| `MramProgram.AccessMram` | api/src/dpu_memory.c:680-879 | an enabled DPU's access succeeds exactly if no run of the program faults, and then exactly the range has been copied, in ceil(size / chunk) transfers, the program has stopped, and IRAM and WRAM hold what they held before; a disabled DPU and an empty range are left alone |
| `MramTransfer.NeighboursSurvive` | api/src/dpu_memory.c:596-661 | an unaligned write preserves every neighbouring byte of every memory if and only if its offset or its end is a multiple of 8 |
| `MramTransfer.WrittenDetermines` | api/src/dpu_memory.c:596-661 | MRAM after a write tells which data was written: different data never leaves the same memory |
| `MramTransfer.BounceResult` | api/src/dpu_memory.c:641-661 | if the bounce buffer agrees with MRAM around the data, writing it back changes the data's range only |
| `MramTransfer.BounceDisplaced` | api/src/dpu_memory.c:623-661 | with both ends misaligned, the rest of the last block is replaced by what lies further on by the misalignment |
| `MramTransfer.CopyToOne` | api/src/dpu_memory.c:596-662 | a write to one DPU succeeds exactly if no run faults, and leaves in MRAM what `Written` says, with the data of the DPU's own buffer if it bounces and of entry 0 if not, and restores IRAM and WRAM |
| `MramTransfer.CopyFromOne` | api/src/dpu_memory.c:485-518 | for every offset and size, exactly if no run faults, exactly the bytes of the range arrive in the host buffer, and the DPU is as before |
| `MramRank.Rank.PlaceOf` | api/src/dpu_memory.c:440-455 | the running loop index always equals the transfer-matrix index of the DPU that the loops are at, and counts every DPU once |
| `MramRank.Rank.PlaceIsInjective` | commons/include/dpu_rank.h:24-25 | different matrix entries belong to different DPUs |
| `MramRank.Rank.CopyToMrams` | api/src/dpu_memory.c:537-677 | a write to the rank succeeds exactly if no run faults on any DPU, and changes exactly the MRAMs of the enabled DPUs that have a buffer, each as for a single DPU |
| `MramRank.Rank.CopyFromMrams` | api/src/dpu_memory.c:425-534 | the same for a read, after which every buffer holds the range of the last DPU that uses it, is unchanged behind the range, and no DPU has changed |
| `MramRank.Rank.OwnDataArrives` | api/src/dpu_memory.c:596-661 | after a write, every DPU that takes part has received its own data if and only if each transfer bounced, or is that of entry 0, or its data agrees with that of entry 0; and entry by entry |
| `MramRank.Rank.UnlikeBuffers` | api/src/dpu_memory.c:646-661 | on every rank with two enabled DPUs: aligned buffers with different bytes, after whose successful transfer the second DPU holds the data of the first |
| `MramRank.Rank.SingleEntry` | api/src/dpu_memory.c:224-246 | a matrix for one DPU can be transferred exactly if the transfer bounces or the DPU has entry 0 |
| `MramRank.AdmittedMeansInside` | api/src/include/dpu_internals.h:78-98 | the range check accepts aligned ranges only, and of those exactly the ones inside MRAM unless their end wraps around at 2^32 |
| `MramRank.WrappedIsAdmitted` | api/src/include/dpu_internals.h:78-98 | the range of 2^32 - 8 bytes at offset 8 is accepted for an MRAM of 64 MB |
| `MramRank.Rank.WriteMrams` | api/src/dpu_memory.c:274-305 | unaligned or outside ranges and a busy rank are turned down without any change; behind the gate the write succeeds exactly if no run faults; on success no enabled DPU of the rank was running unless in fault, exactly the range has changed in the DPUs that take part, and with their own data exactly if the transfer bounced or entry 0 agrees; a range whose end wraps around never succeeds for a DPU that takes part |
| `MramRank.Rank.NoneCounted` | api/src/dpu_memory.c:286-294 | if no DPU is counted as running, no enabled DPU of the rank runs unless it is in fault |
| `MramRank.Rank.ReadMrams` | api/src/dpu_memory.c:308-340 | the same gate for reads |
| `RunContext.EveryRunIsConsistent` | api/src/dpu_runner.c:59-384 | over any run of polls, launches, boots and disablings, with failing commands and DPUs that stop or fault at any time, the counter is the number of recorded DPUs, never wraps around, and every enabled DPU that runs is recorded |
| `RunContext.ZeroMeansQuiet` | api/src/dpu_memory.c:286-294 | when the counter is zero, no enabled DPU runs unless it is in fault |
| `RunContext.BootNeedsQuiet` | api/src/dpu_runner.c:357-384 | a rank is booted only when it is quiet, and then exactly its enabled DPUs are recorded |
| `RunContext.PollTellsTruth` | api/src/dpu_runner.c:273-282 | at any time during a run, a poll records as faulty exactly the enabled DPUs in fault and as running exactly the enabled ones that run and are not in fault; the counter is zero exactly if the rank is quiet, and a fault is reported exactly if an enabled DPU is in fault |
| `RunContext.LaunchRankOutcome` | api/src/dpu_runner.c:59-115 | when a launch on the rank succeeds, and what is then alive, recorded and in fault; a launch that fails before the poll changes nothing, one that fails behind it has refreshed the record |
| `RunContext.LaunchDpuOutcome` | api/src/dpu_runner.c:118-174 | the same for one DPU |
| `RunContext.BootOutcome` | api/src/dpu_runner.c:318-384 | boots of a rank and of a DPU are guarded launches of thread 0, and otherwise change nothing |
| `RunContext.DisableOutcome` | api/src/dpu_internals.c:19-40 | disabling takes exactly that DPU out of its mask, and a failed one changes nothing |
| `RunContext.Runner.Poll` | api/src/dpu_runner.c:273-282 | the loop over the slices records faults and running DPUs of the enabled ones, and counts them |
| `RunContext.Runner.LaunchThreadOnRank` | api/src/dpu_runner.c:59-115 | all or nothing is recorded, after a poll that may change the record on its own |
| `RunContext.Runner.LaunchThreadOnDpu` | api/src/dpu_runner.c:118-174 | a DPU that was recorded already is not counted twice |
| `RunContext.Runner.Boot` | api/src/dpu_runner.c:357-384 | a boot of the rank is refused while any DPU is counted, and otherwise is a launch of the boot thread |
| `RunContext.Runner.BootOne` | api/src/dpu_runner.c:318-353 | the same for one DPU, refused while that DPU is recorded |
| `RunContext.Runner.DisableOne` | api/src/dpu_internals.c:19-40 | disabling takes the DPU out of the mask of its slice, and changes nothing else of the record |
| `RunContext.Runner.StatusOfRank` | api/src/dpu_runner.c:387-406 | done is reported exactly when the counter is zero, fault exactly when some DPU is recorded in fault |
| `BitConfig.GetReciprocal` | ufi/src/ufi_bit_config.c:194-206 | the loop computes the reciprocal of a code |
| `BitConfig.ReciprocalInverts` | ufi/src/ufi_bit_config.c:194-206 | on permutations the reciprocal is the inverse permutation, and taking it twice gives the code back |
| `BitConfig.Compute` | ufi/src/ufi_bit_config.c:38-92 | the tangle of reciprocals comes to four codes: towards the DPU one for each nibble, towards the host exchanged if the nibbles are |
| `BitConfig.BitsArrive` | ufi/src/ufi_bit_config.c:38-142 | for every invertible answer, value, byte, half and bit: towards the host the half changes sides exactly if the topmost nibble of the answer is not zero, and bit k goes to the place of the set bit of the answer's nibble for it; towards the DPU it comes back |
| `BitConfig.CodesTell` | ufi/src/ufi_bit_config.c:53-91 | the stored codes hold, digit by digit, the place of every bit towards the host, and the bit of every place towards the DPU |
| `BitConfig.ShuffledBit` | ufi/src/ufi_bit_config.c:117-129 | a bit of a shuffled nibble is set exactly if a set bit is sent there |
| `BitConfig.Dpu2Cpu` | ufi/src/ufi_bit_config.c:94-142 | the nested loops shuffle every nibble of every byte and place it |
| `BitConfig.Cpu2Dpu` | ufi/src/ufi_bit_config.c:144-189 | the same with the other codes |
| `BitConfig.NibblesOfWord` | ufi/src/ufi_bit_config.c:103-139 | every nibble stays in its byte, is shuffled by its own code, and changes places with the other one exactly if nibbles are swapped |
| `BitConfig.RoundTripsExactlyIfInvertible` | ufi/src/ufi_bit_config.c:38-206 | for every query answer: the directions undo each other for all 32-bit values, in either order, if and only if the six looked-up indices are usable |
| `BitConfig.UsableSyndromes` | ufi/src/ufi_bit_config.c:53-68 | three looked-up indices give an invertible code exactly if the first two differ and the third differs from both or neither of the first two is 0 |
| `BitConfig.DistinctIndicesAreEnough` | ufi/src/ufi_bit_config.c:53-68 | distinct indices are usable |
| `Checkpoint.SplitFlatten` | api/src/dpu_debug.c:388-392 | pieces put one after the other come apart again, whatever follows |
| `Checkpoint.SizeIsLength` | api/src/dpu_debug.c:394-415 | the size function is the length of the image modulo 2^32, and right exactly if the length is below 2^32 |
| `Bytes.EncodeIsLittleEndian` | api/src/dpu_debug.c:388-392 | byte i of a number is its i-th digit to the base 256, the lowest first |
| `Checkpoint.ImageLayout` | api/src/dpu_debug.c:457-482 | an image piece by piece: signature, versions, sizes, memories, arrays, flags and faults, in this order and with these bytes |
| `Checkpoint.Serialize` | api/src/dpu_debug.c:417-485 | the serializer fills a new buffer, or one whose length is the computed size, with the image, and turns down and leaves alone every other buffer |
| `Checkpoint.Deserialize` | api/src/dpu_debug.c:286-386 | the reading cursor succeeds exactly on what the reference parser accepts, with the same context, whose IRAM size is the last 16 bits of the one that was read |
| `Checkpoint.ImageReadsBack` | api/src/dpu_debug.c:286-386 | every image, whatever follows it and whatever sizes wrap around, reads back as what the image holds: empty memories absent, arrays cut where the 32-bit sizes say and padded as the reader allocates them |
| `Checkpoint.ParseImage` | api/src/dpu_debug.c:286-386 | if the arrays are as long as the sizes say and no size that is written wraps around, the context itself reads back, with absent and empty memories normalised |
| `Checkpoint.PrefixIsRejected` | api/src/dpu_debug.c:254-265 | no strict prefix of an image is ever read successfully |
| `Checkpoint.ParsedIsImage` | api/src/dpu_debug.c:286-386 | what is read successfully is written again as the bytes that were read if and only if the header's IRAM size is below 65536; the context keeps that size modulo 65536, and with exact sizes it is well formed under the same condition |
| `Checkpoint.TooManyInstructions` | api/src/dpu_debug.c:313-342 | an image whose header asks for 65536 instructions: it reads back, as a context of IRAM size 0 that is written as other bytes |
| `Checkpoint.ReadingBackIsStable` | api/src/dpu_debug.c:417-485 | the context that is read back is written as the same bytes, and reads back as itself |
| `Checkpoint.RewritingIsStable` | api/src/dpu_debug.c:417-485 | a context without its absent and empty memories is written as the same bytes |
| `AddressMap.AddressDecodes` | pimnic/entities.cpp:16-76 | slice, DPU and offset can be read off an address, which is below 2^33 and has bit 17 clear |
| `AddressMap.AddressLayout` | pimnic/entities.cpp:16-76 | where every bit of an address comes from: the slice, the DPU, or which bit of the offset |
| `AddressMap.AddressIsInjective` | pimnic/entities.cpp:57-76 | different bytes of the 64 MRAMs have different addresses |
| `AddressMap.ImageOfAddress` | pimnic/entities.cpp:57-76 | the addresses in use are exactly those below 2^33 with bit 17 clear |
| `AddressMap.TranslateMovesBits` | pimnic/entities.cpp:16-34 | the translation moves bits as its comment in the source says |
| `AddressMap.TranslateIsBijection` | pimnic/entities.cpp:16-34 | the translation permutes the offsets of an MRAM |
| `Transpose.InterleavedIsTransposed` | util/utils.cpp:20-48 | gather, in-lane shuffle and permute together transpose the 8 by 8 byte matrix |
| `Transpose.InterleavedTwice` | util/utils.cpp:20-48 | doing it twice changes nothing |
| `Transpose.StoreAgreesWithAddresses` | pimnic/entities.cpp:57-87 | storing the interleaved block at a word's address is the same as writing the 64 bytes one by one at their own addresses |
| `Drain.DrainPipeline` | api/src/dpu_internals.c:42-125 | it succeeds exactly if no command of the debug interface fails; then no thread is left, every thread that ran has left exactly once, and exactly those have a new program counter and, if asked, a new number |
| `Drain.RecordedIs` | api/src/dpu_internals.c:103-114 | each stopped thread has the counter that was read when it stopped, and the others keep theirs |
| `Drain.NumberedIs` | api/src/dpu_internals.c:103-114 | the k-th thread to stop gets the k-th number |
| `Drain.NumbersAreGapFree` | api/src/dpu_internals.c:103-114 | wherever the numbering begins, the i-th thread to stop gets the i-th number after the first, modulo 256, and without wrapping around while there is room |
| `Drain.NumbersDiffer` | api/src/dpu_internals.c:103-114 | two threads get the same number exactly if a multiple of 256 stops lies between them, so up to 256 threads get different numbers |
| `CommandRing.Ring.Record` | ufi/src/ufi_rank_utils.h:170-201 | recording appends to an unbounded history of which the array keeps the last commands |
| `CommandRing.Ring.Dump` | ufi/src/ufi_rank_utils.h:115-130 | the dump shows exactly the last min(n, size) commands, oldest first |
| `Profiler.CallsAreEncoded` | api/src/dpu_profiler.c:144-149 | the calls are exactly the instructions made of one of the two call encodings by adding bits |
| `Profiler.RewrittenIs` | api/src/dpu_profiler.c:189-212 | what becomes of every instruction: hook calls, returns, the hook's own return, and all others, in every mode |
| `Profiler.EntryOfCall` | api/src/dpu_profiler.c:189-212 | the entry of a call stands behind those of the earlier calls, with its own address for a hook call and the next one for any other |
| `Profiler.SitesFit` | api/src/dpu_profiler.c:138-212 | from every instruction on, at least as many calls are counted as entries are made |
| `Profiler.Patcher.CountCalls` | api/src/dpu_profiler.c:144-149 | the first pass adds the number of calls, in 16 bits |
| `Profiler.Patcher.Patch` | api/src/dpu_profiler.c:58-215 | the second pass stays inside the tables, leaves the entries of earlier segments alone, and rewrites only hook calls and, for statistics, returns other than the hook's, among the instructions that a 16-bit size covers |
| `Profiler.EveryCallHasASite` | api/src/dpu_profiler.c:189-212 | when statistics are collected, every counted call gets its entry |
| `Profiler.FitsExactly` | api/src/dpu_profiler.c:138-212 | in every mode, the entries of a segment fit into the tables exactly if the 16-bit counter does not wrap around |
| `Profiler.CounterWraps` | api/src/dpu_profiler.c:138-212 | two hook calls behind 65535 other calls leave tables of one place, which the entries do not fit |
| `Profiler.Patcher.LoadProgram` | api/src/dpu_profiler.c:58-215 | over all segments of a program, in every mode: whether it is patched at all, which segments are rewritten and how, and that each segment's entries stand where its calls begin; when statistics are collected the tables list exactly the call sites, in order |

## Left out

- Barrier-free branches run in place: the kernels are claimed to work between disjoint regions only; in place, `Barriers.InPlaceWithoutBarriers` says exactly when they do.
- The host-side collectives, apart from the planner's loops and the launches of the all-reduce that `Barriers.AllReduceInPlace` is about: what they do between the launches, and the choice of the kernel binaries by name.
- The kernel `data_relocate_modified_reverse_clockwise` is modelled for `num_comm_rg` equal to 2, which its pair barrier needs.
- MramProgram.AccessMram: an access that fails promises only its status and the sizes of the memories, because a fault leaves WRAM and MRAM unknown and the code then does not restore anything.
- MramProgram.NextTransfer: writes the context words before it loads the buffer, while the loop in the source loads the buffer first; the two pieces of WRAM do not overlap.
- Saving and restoring the threads of a DPU around an MRAM access, and the polls during it: calls into the fault process and the run context that move no data.
- The bounce buffer is reused between DPUs in the source; here every transfer has a fresh one, which no result depends on.
- Transfers that do not go through a DPU program, scatter-gather transfers, and allocation failures.
- RunContext.Runner.Poll: does not model the profiling that a poll may trigger.
- Leaving a fault state: no event clears a fault, so a DPU that a debugger resumes is not covered by `RunContext.ZeroMeansQuiet`.
- The byte-order matrix of the bit-order configuration, which the source leaves open.
- Checkpoint.Deserialize: compares a word only after checking that it is there; the source compares first, with the same status. A buffer that ends inside a word is never read past its end here.
- Checkpoint.Serialize: asks, if it will write, for an image below 2^32 bytes, which is when `Checkpoint.SizeIsLength` says that the buffer is large enough.
- The rank map of `pimnic/entities.cpp`, cache flushes and the streaming variant of the store, which write the same bytes.
- Drain.DrainPipeline: promises nothing when a command of the debug interface fails.
- Profiler.Patcher.Patch: asks that the calls counted so far fit the 16-bit counter; with more, the counter wraps around and the second pass leaves the tables, as `Profiler.FitsExactly` says.
- Profiler.Patcher.LoadProgram: asks the same of all segments together. Segments of other DPUs than the profiled one are not patched and not modelled.
- Disabling a DPU while a transfer runs: whether a DPU is enabled does not change during the transfers of `MramRank.Rank`.
- Instruction encodings are parameters; all that is used is that a hook call is a call and a return is not.
- RDMA, sockets, ELF loading, the mlx5 field accessors, logging, locks and the small utilities.
