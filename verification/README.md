# Verified models of vLLM's algorithmic kernels

vLLM is mostly glue around kernels and network services, but a number of its files hold small algorithms whose
correctness is not obvious from reading them: a liveness pass over partitions of a compiled graph, a sweep over build
events, an allocator that takes memory away under a reserved address range and gives it back, containers that pretend to
be lists of dictionaries, masks whose purpose is a property of whole generations. This project models these algorithms
in Dafny and proves what they are for. Where the code does not do what its documentation says, the model follows the
code, a lemma exhibits an input, and another lemma says exactly for which inputs the promise holds.

`dafny verify dfyconfig.toml` checks everything.

## What is proved

**Graph partitions** (`GraphPartition.dfy`, from `vllm/vllm/env_override.py`). A backward pass gives each partition of a
scheduled graph its inputs, outputs and deallocations. `PartitioningPreservesMeaning`: for every graph with unique
producers and sound last uses, with mutation aliases and buffers without layout, and for every interpretation of the
kernels, running the partitions through their signatures succeeds and leaves every graph output as the run of all nodes in
order does, if and only if no partition frees an unallocated buffer made by an earlier partition. `UnallocatedFreeFails` is
such a graph. Aliases may have a layout of their own or not; they have to count as allocated exactly if the buffer behind
them does, and `AliasOfUnallocatedFails` says what happens otherwise. `NothingFreedIsHeld`: what a partition frees is gone. (The comment about `WeakDep` at lines 244-245
describes a filter that the code does not have; the model has none either.)

**Ninja build times** (`NinjaLog.dfy`, `NinjaSweep.dfy`, from `vllm/tools/report_build_time_ninja.py`). The reader keeps the
last build of a log and groups it by command. The sweep reads each step's weighted duration off one running accumulator;
it is proved to be the sum over elementary time segments of segment length divided by the number of running steps, however
ties are sorted and however the entries are ordered. The weighted durations add up to the time during which anything
runs, at most the span of the build, with equality exactly if there is no idle gap. The dictionary misses exactly if
some entry ends before it starts.

**The sleep-mode allocator on ROCm** (`ChunkPlan.dfy`, `CumemAllocator.dfy`, from `vllm/csrc/cumem_allocator.cpp`). 64-bit
arithmetic is explicit: the chunks cover the aligned size exactly if and only if no addition wraps, and one configurable
chunk size makes the code divide by zero. The driver is a state with an arbitrary fate for every call. A failed
creation or mapping is rolled back, up to exactly what the clean-up calls fail to give back. An alternating run of waking
and sleeping goes through if and only if the driver refuses nothing and moves no range; then the range stays reserved,
and while awake every address of it is accessible and lies in exactly one mapping. Findings, each with its exact condition: a failure to set
access rights is not rolled back; a stale global error leaks the first chunk; a range that is moved is lost; `my_free` with
a size other than the reserved one never frees the range.

**Log probabilities and streamed outputs** (`FlatLogprobs.dfy`, `RequestOutputs.dfy`, from `vllm/vllm/logprobs.py` and
`vllm/vllm/outputs.py`). The flat container refines a plain list of insertion-ordered dictionaries over every run of appends,
extensions and forward slices. Slices with a negative step lose their columns; `DescendingSlice` says which positions
can still be read. Merging deltas is associative, so it makes no difference how many were merged beforehand. The
assertion on log probabilities holds for a stream if and only if, whenever a completion has some, the first one with its
index has; it can therefore fail for a tail that is merged beforehand and not in turn, and `StreamCut` says when the
orders agree.

**Bad words** (`BadWords.dfy`, from `vllm/vllm/logits_process.py`). A sequence of tokens can be generated if and only if the
model's own logits allow each token and no bad word ends among the generated tokens.

**XPU reference operations** (`Quantization.dfy`, `GatherLookup.dfy`, `TopK.dfy`, from `vllm/vllm/_xpu_ops.py`). The
quantisation error is at most half a step for every rounding to nearest, even where the clamp acts, and the step is the
one at which the values just fit. The ragged lookup finds
the one sequence that owns a token. The gather then looks the block up with a place counted from one and the offset
with a place counted from zero: a whole batch is read right if and only if no sequence fills a block, and a key is read
back from the address it was written to if and only if it is in the first of several slots of its block, and so is its
scale. Masked top-k
selects the largest visible logits, and at least as many as are finite.

**Model printing** (`IndexRanges.dfy`, `ModuleTree.dfy`, `PrintedTree.dfy`, from `vllm/vllm/model_inspection.py`). Printed
index ranges can be read back, for all integers. A signature text determines a module if no child's name contains a colon;
descriptions satisfy their part of the condition, because line 27 removes line breaks. With colons in names, which PyTorch
accepts, different modules can have one signature (`NamesCollide`); they are then printed as one group, and all but the
first are lost (`CollisionIsLost`). Without them, collapsing identical layers loses nothing: the printed tree, on all its
levels, determines the module up to the order of its numbered children and the spelling of their names, and the module
itself if these come first and in order. How numbered and named children mix is lost. Modules are trees here: PyTorch
lists a submodule that two parents share only once, so a signature says less about such modules.

`Sorting.dfy`, `Searching.dfy`, `Integers.dfy`, `LogitValues.dfy` and `Options.dfy` hold what several of these need.

Real numbers stand for floating point throughout, with minus infinity as a case of its own for logits. Driver calls,
kernels, rounding, the library's top-k and the reading of integers from names are parameters.

## Model

| member | source | states |
|---|---|---|
| GraphPartition.PartitioningPreservesMeaning | vllm/vllm/env_override.py:228-329 | the run through the signatures succeeds iff no partition frees an unallocated buffer of an earlier one, and then every allocated graph output equals that of the run of all nodes |
| GraphPartition.NothingFreedIsHeld | vllm/vllm/env_override.py:261-284 | after a successful run the caller holds no name, constants apart, that some partition has freed |
| GraphPartition.SignatureFlags | vllm/vllm/env_override.py:280-284 | an input is flagged for deallocation iff some node of the partition is the last to use it, exactly the inputs are flagged, and each signature carries its partition's cudagraph flag |
| GraphPartition.FreedIsNotReturned | vllm/vllm/env_override.py:286-300 | a partition does not return what it frees |
| GraphPartition.MutationIsReturned | vllm/vllm/env_override.py:246-306 | a partition that changes a buffer in place asks for the buffer itself and returns it |
| GraphPartition.NoneLayoutCases | vllm/vllm/env_override.py:208-226 | which buffers count as unallocated; a mutation output without a layout of its own counts as the buffer it mutates |
| GraphPartition.UnallocatedFreeFails | vllm/vllm/env_override.py:261-284 | a well-formed graph of two partitions whose second partition asks for a buffer without layout and cannot be called |
| GraphPartition.UnallocatedInputFails | vllm/vllm/env_override.py:261-284 | in any graph, a partition that asks for an unallocated buffer cannot be called by a caller that holds allocated ones |
| GraphPartition.AliasOfUnallocatedFails | vllm/vllm/env_override.py:246-259 | so a mutation output that counts as allocated while its real buffer does not fails as soon as another partition uses it |
| GraphPartition.MutatedConstantMisses | vllm/vllm/env_override.py:298-306 | the look-up of output nodes misses if a later partition needs a constant that this one has mutated |
| GraphPartition.InputsAvailable | vllm/vllm/env_override.py:246-284 | a caller faithful to the reference holds every input that a signature asks for, iff the partition frees no unallocated buffer made before it |
| GraphPartition.OutputsAgree | vllm/vllm/env_override.py:290-306 | everything a signature promises to return is in the partition's store at its end, with the content of the whole run |
| GraphPartition.OutputsHaveNodes | vllm/vllm/env_override.py:302-306 | the look-up of output nodes by name never misses |
| GraphPartition.NeededIsUnmet | vllm/vllm/env_override.py:325-327 | storage that later partitions touch or that holds a graph output is among the unmet names, under its own name or that of an aliasing graph output |
| GraphPartition.UnmetIsNeeded | vllm/vllm/env_override.py:325-327 | whatever the backward pass keeps as unmet is needed later |
| GraphPartition.MutationChain | vllm/vllm/env_override.py:257-259 | resolving a mutation inside a partition ends in a buffer made in it or in one of its inputs |
| GraphPartition.TouchedIsInput | vllm/vllm/env_override.py:238-273 | storage that exists before a partition and is touched by it is one of its inputs |
| GraphPartition.NeededIsReturned | vllm/vllm/env_override.py:286-306 | storage still needed that was made in the partition or handed to it is returned |
| GraphPartition.LocalRunAgrees | vllm/vllm/env_override.py:231-263 | a partition that sees only its inputs and drops buffers after their last use computes what the whole run computes |
| GraphPartition.OnePartition | vllm/vllm/env_override.py:228-329 | one partition called through its signature leaves the caller faithful to the whole run |
| GraphPartition.PartitionedRun | vllm/vllm/env_override.py:228-329 | the same for every suffix of the partition list, by induction over the partitions |
| GraphPartition.CollectNames | vllm/vllm/env_override.py:231-263 | the three loops collect the partition's outputs, reads and writes, and last uses |
| GraphPartition.PartitionSignature | vllm/vllm/env_override.py:231-327 | one turn of the loop: the signature and the unmet names before the partition |
| GraphPartition.GetGraphPartitionSignature | vllm/vllm/env_override.py:203-329 | the backward loop yields the signatures in order, for as many partitions from the back as the shorter list has |
| NinjaLog.ReadTargets | vllm/tools/report_build_time_ninja.py:104-148 | fails iff the header is not recognised or a time is not an integer; otherwise the targets are new, distinct and hold exactly the groups of all records or of the last build, a thousand of their seconds being the milliseconds of the log |
| NinjaLog.ReadLines | vllm/tools/report_build_time_ninja.py:112-148 | the loop over the lines, skipping malformed ones |
| NinjaLog.ReadLine | vllm/tools/report_build_time_ninja.py:115-147 | one line: skipped if malformed, a failure if its times are no integers, otherwise one more record |
| NinjaLog.ReadRecord | vllm/tools/report_build_time_ninja.py:120-147 | one well-formed line takes the reader's state to that of one more record |
| NinjaLog.ResetForNewBuild | vllm/tools/report_build_time_ninja.py:124-143 | the dictionary is emptied exactly when the record cannot belong to the build it holds |
| NinjaLog.TimesChanged | vllm/tools/report_build_time_ninja.py:132-135 | tells exactly whether the command is known with other times |
| NinjaLog.AddName | vllm/tools/report_build_time_ninja.py:144-147 | the name goes to its command's target, made first if there is none; the others stay |
| NinjaLog.LastBuildIsSuffix | vllm/tools/report_build_time_ninja.py:124-143 | what is kept is a suffix of the log |
| NinjaLog.LastBuildStep | vllm/tools/report_build_time_ninja.py:124-143 | a record starts a new build iff its end goes back or its command is known with other times |
| NinjaLog.KeptStep | vllm/tools/report_build_time_ninja.py:124-143 | the same in terms of the group the dictionary holds, for both settings of show_all |
| NinjaLog.GroupsByCommand | vllm/tools/report_build_time_ninja.py:132-148 | one group per command, in order of first appearance, with its first times and all its names in order |
| NinjaLog.HashesAreDistinct | vllm/tools/report_build_time_ninja.py:133-145 | no command has two groups |
| NinjaLog.NoNameIsLost | vllm/tools/report_build_time_ninja.py:147-148 | the groups hold as many names as there are records |
| NinjaSweep.SummarizeEntries | vllm/tools/report_build_time_ninja.py:207-256 | fails iff there are no entries or one ends before it starts; otherwise each target holds its charge, between zero and its duration, the total is the busy time, the CPU time the load, and the total fills the span iff there is no idle gap |
| NinjaSweep.SortAndSweep | vllm/tools/report_build_time_ninja.py:223-256 | whatever the sort returns, the sweep succeeds iff no entry ends before it starts, stores every charge and returns the busy time |
| NinjaSweep.WeightedDurations | vllm/tools/report_build_time_ninja.py:270-279 | after the summary every weighted duration can be asked for without tripping its assertion, and is the step's charge |
| NinjaSweep.Sweep | vllm/tools/report_build_time_ninja.py:230-256 | over any admissible order of the events, every stop finds its step iff no entry ends before it starts, and then reads off the step's charge |
| NinjaSweep.PassEvent | vllm/tools/report_build_time_ninja.py:239-255 | the loop body keeps the sweep's invariant and adds a finished step's charge to the total; it fails iff it is at the stop of an entry that ends before it starts |
| NinjaSweep.Finish | vllm/tools/report_build_time_ninja.py:248-254 | a stop event stores the step's whole charge and removes the step |
| NinjaSweep.Advance | vllm/tools/report_build_time_ninja.py:240-244 | the accumulator takes up the segment's length divided by the number of running steps |
| NinjaSweep.Collect | vllm/tools/report_build_time_ninja.py:209-220 | earliest start, latest end, total duration and both events of every entry |
| NinjaSweep.SortEvents | vllm/tools/report_build_time_ninja.py:223-224 | a permutation of the events sorted by time and kind |
| NinjaSweep.SortedIsSchedule | vllm/tools/report_build_time_ninja.py:223-228 | however ties are broken, the sort gives each event once, a start before a stop at the same time |
| NinjaSweep.SameTimes | vllm/tools/report_build_time_ninja.py:223-224 | all such orders, of the entries in any order, go through the same times |
| NinjaSweep.ScheduleIsGrid | vllm/tools/report_build_time_ninja.py:225-228 | these times are the start and end times of the entries, in order |
| NinjaSweep.RunningIsCovering | vllm/tools/report_build_time_ninja.py:229-255 | between two different event times the running steps are those whose interval covers the segment |
| NinjaSweep.SegmentStep | vllm/tools/report_build_time_ninja.py:240-244 | a segment charges its share to each running step and nothing to the others |
| NinjaSweep.StopReadsCharge | vllm/tools/report_build_time_ninja.py:248-251 | the difference read at a stop is the step's charge over all segments |
| NinjaSweep.ChargeBounds | vllm/tools/report_build_time_ninja.py:84-89 | a charge is between zero and the duration, so the assertion before a weighted duration is handed out holds |
| NinjaSweep.Conservation | vllm/tools/report_build_time_ninja.py:248-254 | the charges of all entries add up to the time during which anything runs |
| NinjaSweep.DurationsAddUp | vllm/tools/report_build_time_ninja.py:211-217 | the durations add up to running count times length over all segments |
| NinjaSweep.ChargesFillTheSpan | vllm/tools/report_build_time_ninja.py:220-256 | the charges are at most the span from earliest to latest, and equal to it iff there is no idle gap |
| NinjaSweep.ChargePermuted | vllm/tools/report_build_time_ninja.py:212-224 | the order in which the entries are listed does not change any charge |
| NinjaSweep.SweepGoesThroughCuts | vllm/tools/report_build_time_ninja.py:223-228 | whatever the sort returns, the sweep goes through the segments by which charges are defined |
| ChunkPlan.MemcreateChunkSize | vllm/csrc/cumem_allocator.cpp:21-42 | a positive number of whole megabytes: the configured one if it is positive and does not overflow, the default of 256 otherwise |
| ChunkPlan.RoundUpExact | vllm/csrc/cumem_allocator.cpp:341 | the round-up is the least multiple not below its argument iff its addition does not wrap; otherwise it is zero |
| ChunkPlan.NumChunksExact | vllm/csrc/cumem_allocator.cpp:369-370 | the number of chunks is the right one, or zero if the addition wraps |
| ChunkPlan.ChunkAt | vllm/csrc/cumem_allocator.cpp:388-390 | the subtraction never underflows, and a chunk is a whole one or what is left |
| ChunkPlan.FillChunks | vllm/csrc/cumem_allocator.cpp:376-391 | the chunks are positive multiples of the granularity, equal but for the last, and sum to the aligned size |
| ChunkPlan.PlanChunks | vllm/csrc/cumem_allocator.cpp:341-391 | divides by zero iff the chunk size wraps; covers the least multiple of the granularity above the size iff no addition wraps |
| ChunkPlan.DivisionByZeroIsReachable | vllm/csrc/cumem_allocator.cpp:366-370 | a chunk size accepted from the environment leads to the division by zero at a granularity of two megabytes |
| CumemAllocator.Runtime.CudaCheck | vllm/csrc/cumem_allocator.cpp:63-74 | a failure sets the global error code, a success leaves it as it was |
| CumemAllocator.Runtime.CreateOne | vllm/csrc/cumem_allocator.cpp:151-152 | one more chunk is created iff there is no stale error and the driver does not refuse it; a stale error hides that it was created |
| CumemAllocator.Runtime.CreateAll | vllm/csrc/cumem_allocator.cpp:150-159 | all chunks are created with new handles iff no call is refused; otherwise the first refused call is named and exactly the chunks that could not be released are left |
| CumemAllocator.Runtime.UndoCreation | vllm/csrc/cumem_allocator.cpp:153-157 | releases the chunks created before the refused one |
| CumemAllocator.Runtime.MapOne | vllm/csrc/cumem_allocator.cpp:162-164 | the chunk is mapped behind those before it iff the driver does not refuse it, which it does if its call fails or the place is not free or not reserved |
| CumemAllocator.Runtime.MapAll | vllm/csrc/cumem_allocator.cpp:160-179 | all chunks are mapped back to back iff no call is refused; otherwise the first refused call is named and exactly the chunks that could not be given back are left |
| CumemAllocator.Runtime.UndoMapping | vllm/csrc/cumem_allocator.cpp:165-176 | gives back all chunks once the mapping of one was refused |
| CumemAllocator.Runtime.GiveBack | vllm/csrc/cumem_allocator.cpp:216-233 | reports success iff every unmap and release succeeded; in any case what is left is exactly what the driver failed to give back |
| CumemAllocator.Runtime.UnmapTiles | vllm/csrc/cumem_allocator.cpp:216-226 | the tiles whose unmapping failed are left, and no others, and the access to the others is gone |
| CumemAllocator.Runtime.ReleaseHandles | vllm/csrc/cumem_allocator.cpp:228-233 | the handles whose release failed are left, and no others |
| CumemAllocator.Runtime.BackAll | vllm/csrc/cumem_allocator.cpp:150-180 | both loops succeed iff no creation and no mapping is refused, and a failure is rolled back |
| CumemAllocator.Runtime.CreateAndMap | vllm/csrc/cumem_allocator.cpp:150-190 | success iff there is no stale error, nothing is refused and the access rights are set, and then exactly the range has become accessible; all but the last leaves everything mapped; a refused call is rolled back, completely if the clean-up succeeds; a stale error leaks the first chunk |
| CumemAllocator.Runtime.CycleRange | vllm/csrc/cumem_allocator.cpp:240-255 | the range comes back iff it is freed, reserved again and not moved; what is reserved otherwise is stated for every case |
| CumemAllocator.Runtime.UnmapAndRelease | vllm/csrc/cumem_allocator.cpp:216-259 | succeeds iff all driver calls do and the address comes back; in any case the backing left is what the driver failed to give back, and the range is touched only if that is nothing |
| CumemAllocator.Runtime.Free | vllm/csrc/cumem_allocator.cpp:536-550 | no error iff there was none, all calls succeed and the size is the reserved one; in any case the backing left is what the driver failed to give back and the ranges left are stated; with another size the range is never freed |
| CumemAllocator.Runtime.TakeStep | vllm/csrc/cumem_allocator.cpp:95-261 | one step of waking or sleeping succeeds iff the driver refuses nothing and the range is not moved |
| CumemAllocator.Runtime.Alternate | vllm/csrc/cumem_allocator.cpp:95-261 | any number of alternating steps goes through iff there is no stale error and no step is refused anything; then the range is reserved as before, the allocation is fully backed or not at all, and while awake every address is covered once and accessible, once asleep again none is accessible |
| CumemAllocator.Runtime.AwakeCoversRange | vllm/csrc/cumem_allocator.cpp:160-179 | while awake every address from d_mem to d_mem + size lies in exactly one mapping, that of a live chunk of the allocation |
| CumemAllocator.Runtime.AwakeIsNotAsleep | vllm/csrc/cumem_allocator.cpp:160-179 | the two states of an allocation exclude each other |
| CumemAllocator.TilesPartition | vllm/csrc/cumem_allocator.cpp:160-179 | every address of the range lies in a tile, and tiles do not overlap |
| CumemAllocator.PlanTilesRange | vllm/csrc/cumem_allocator.cpp:366-391 | the chunks of a covering plan tile the aligned range exactly |
| CumemAllocator.StillClear | vllm/csrc/cumem_allocator.cpp:160-178 | tiles already mapped are never in the way of the next one |
| CumemAllocator.NextTile | vllm/csrc/cumem_allocator.cpp:219-226 | an unmap call takes its own tile away if it succeeds, and nothing otherwise |
| CumemAllocator.NextHandle | vllm/csrc/cumem_allocator.cpp:228-233 | a release call takes its own handle away if it succeeds, and nothing otherwise |
| CumemAllocator.NextAccess | vllm/csrc/cumem_allocator.cpp:219-226 | an unmap call takes the access to its own tile away if it succeeds, and nothing otherwise |
| CumemAllocator.RangeLost | vllm/csrc/cumem_allocator.cpp:240-255 | the range is lost iff it was freed and did not come back; a range put elsewhere stays behind only if freeing it failed |
| Logprobs.FlatLogprobs.Append | vllm/vllm/logprobs.py:63-72 | the list gets one more dictionary, the empty one for None |
| Logprobs.FlatLogprobs.AppendFast | vllm/vllm/logprobs.py:74-93 | the list gets the dictionary of the zipped columns, the shortest column deciding |
| Logprobs.FlatLogprobs.Extend | vllm/vllm/logprobs.py:95-98 | the list gets all dictionaries in order |
| Logprobs.FlatLogprobs.GetItem | vllm/vllm/logprobs.py:110-120 | the dictionary at the index, negative indices counting from the end; none iff out of range |
| Logprobs.FlatLogprobs.GetSlice | vllm/vllm/logprobs.py:121-133 | none iff the step is zero or nothing is selected; otherwise a container that is well-formed and stands for the slice of the list if the step is positive or one position is selected |
| Logprobs.Picks | vllm/vllm/logprobs.py:122-123 | the positions a Python slice selects lie in the list and ascend or descend with the step |
| Logprobs.NegativeBounds | vllm/vllm/logprobs.py:122-123 | a negative bound selects like the bound counted from the end |
| Logprobs.FarBoundsForward | vllm/vllm/logprobs.py:122-123 | bounds past an end, for a positive step, select like that end, or nothing |
| Logprobs.FarBoundsBackward | vllm/vllm/logprobs.py:122-123 | the same for a negative step |
| Logprobs.MissingBounds | vllm/vllm/logprobs.py:122-123 | what bounds and a step that are left out mean |
| Logprobs.PicksBetween | vllm/vllm/logprobs.py:122-123 | between bounds in range exactly the positions at multiples of the step from the start, without the stop |
| Logprobs.PicksDown | vllm/vllm/logprobs.py:122-123 | a negative step without a stop goes down to the first position |
| Logprobs.PlainSlice | vllm/vllm/logprobs.py:122-123 | a slice without a step is the part of the list between its bounds |
| Logprobs.StepsUpMembers | vllm/vllm/logprobs.py:122-123 | with a positive step these are exactly the positions between the bounds at multiples of the step |
| Logprobs.StepsDownMembers | vllm/vllm/logprobs.py:122-123 | the same for a negative step |
| Logprobs.FlatLogprobs.Iterate | vllm/vllm/logprobs.py:146-152 | iteration yields the list |
| Logprobs.SliceIsSlice | vllm/vllm/logprobs.py:121-133 | slicing commutes with abstraction, gaps between ranges included |
| Logprobs.DescendingSlice | vllm/vllm/logprobs.py:121-133 | with a negative step all columns are empty, and a position can be read iff it had no entries |
| Logprobs.AppendPositionView | vllm/vllm/logprobs.py:63-93 | one more range over grown columns adds one dictionary and changes no other |
| Logprobs.LastItemWins | vllm/vllm/logprobs.py:113-120 | of entries with the same token id the last one counts |
| Logprobs.NothingElse | vllm/vllm/logprobs.py:113-120 | a dictionary holds nothing that was not among its entries |
| Logprobs.KeysInOrder | vllm/vllm/logprobs.py:113-120 | a dictionary keeps the order in which its keys first came |
| Logprobs.FromItemsOfDict | vllm/vllm/logprobs.py:66-71 | writing a dictionary's items out and collecting them again gives the dictionary |
| Logprobs.Perform | vllm/vllm/logprobs.py:63-133 | each operation does to the list what the container's operation does to it |
| Logprobs.Replay | vllm/vllm/logprobs.py:63-152 | after any run of appends, fast appends, extensions and slices, iteration yields what a plain list would |
| Logprobs.AppendLogprobsForNextPosition | vllm/vllm/logprobs.py:175-206 | both kinds of container get the same dictionary, for every length of the inputs and for num_logprobs -1 |
| Logprobs.NextItemsAre | vllm/vllm/logprobs.py:184-204 | the entries are as many as the shortest input and the ranks allow; the first has the given rank, the others are numbered from one |
| RequestOutputs.CompletionOutput.Merge | vllm/vllm/outputs.py:156-167 | fails iff the assertion on log probabilities does; otherwise contents are appended and the state replaced; a failure leaves text and tokens appended |
| RequestOutputs.RequestOutput.AddOne | vllm/vllm/outputs.py:152-173 | one completion is merged into, or replaces, the entry with its index, or is appended |
| RequestOutputs.RequestOutput.AddAll | vllm/vllm/outputs.py:151-173 | the nested loops merge all completions in order; they fail iff one of the assertions does, at the first such completion, which is left merged by half |
| RequestOutputs.RequestOutput.Add | vllm/vllm/outputs.py:145-173 | the same for a whole output, with its finished flag and transfer parameters; this is the step of which streams are made |
| RequestOutputs.JoinAssociative | vllm/vllm/outputs.py:156-167 | joining completions is associative, and the assertions fail alike unless the middle one has no log probabilities and the last one has |
| RequestOutputs.MergeAssociative | vllm/vllm/outputs.py:151-173 | merging deltas beforehand gives the same outputs, and the same failures if the deltas can be merged at all |
| RequestOutputs.MergeIntoDelta | vllm/vllm/outputs.py:151-173 | a completion may be merged into a delta before or after the delta is merged |
| RequestOutputs.MergeableIntoDelta | vllm/vllm/outputs.py:160-161 | if it can be merged beforehand, the assertions fail in both orders alike |
| RequestOutputs.MergingBeforehandCanFail | vllm/vllm/outputs.py:160-161 | three deltas that can be merged in turn but not with the last two merged beforehand |
| RequestOutputs.MergeKeepsDistinct | vllm/vllm/outputs.py:152-173 | no two entries get the same index |
| RequestOutputs.MergeKeepsArrivalOrder | vllm/vllm/outputs.py:151-173 | entries stand in the order in which their indices first arrived |
| RequestOutputs.MergeCollects | vllm/vllm/outputs.py:151-173 | the entry of an index joins, in order, all completions with that index, old and new |
| RequestOutputs.MergeReplaces | vllm/vllm/outputs.py:168-173 | without aggregation the entry of an index is the latest completion with that index, and other entries stay |
| RequestOutputs.JoinAllContents | vllm/vllm/outputs.py:156-167 | joined text and tokens are the concatenations in order; reasons and cumulative log probability are the latest; experts and adapter are those of the first |
| RequestOutputs.JoinAllLogprobs | vllm/vllm/outputs.py:160-162 | joined log probabilities are the concatenation in order, and absent iff no completion has any |
| RequestOutputs.StreamCut | vllm/vllm/outputs.py:145-173 | however a stream of outputs is cut, merging its tail beforehand gives the same output; and if the tail can be merged beforehand at all, the assertions hold in both orders or in none |
| RequestOutputs.StreamBursts | vllm/vllm/outputs.py:145-173 | the same for a stream cut into any number of bursts that are merged beforehand |
| RequestOutputs.StreamCollects | vllm/vllm/outputs.py:145-173 | after a whole stream the entry of an index joins all completions with that index, in the order of the stream |
| RequestOutputs.StreamState | vllm/vllm/outputs.py:148-149 | a stream is finished once one of its outputs is, and has the transfer parameters of the last one |
| RequestOutputs.StreamMergeableIff | vllm/vllm/outputs.py:160-161 | a stream can be merged iff, whenever a completion has log probabilities, the first one with its index has some |
| RequestOutputs.AllMergeableIff | vllm/vllm/outputs.py:160-161 | the same for the completions of one output |
| RequestOutputs.EntryLikeFirst | vllm/vllm/outputs.py:160-162 | as long as the assertion holds, an entry has log probabilities iff the first completion with its index had |
| BadWords.NoBadWordsLogitsProcessor.CheckTokenIdsBounds | vllm/vllm/logits_process.py:106-121 | the tokens outside the vocabulary, in order and with repetitions |
| BadWords.NoBadWordsLogitsProcessor.InitWordBias | vllm/vllm/logits_process.py:89-104 | minus infinity exactly for the single-token bad words; not set iff some token is out of bounds |
| BadWords.NoBadWordsLogitsProcessor.LastTokenBias | vllm/vllm/logits_process.py:64-83 | minus infinity exactly for tokens that complete a longer bad word; fails iff there is an empty bad word |
| BadWords.NoBadWordsLogitsProcessor.Call | vllm/vllm/logits_process.py:56-87 | reports tokens out of bounds, fails on an empty word, and otherwise masks exactly the tokens that complete a bad word and changes no other logit |
| BadWords.NoBadWordsLogitsProcessor.Generate | vllm/vllm/logits_process.py:56-87 | on one processor, before or after its first call, a generation goes through iff the logits allow its tokens and no bad word ends among them |
| BadWords.InvalidNone | vllm/vllm/logits_process.py:106-114 | nothing is reported iff every token of every word is in the vocabulary |
| BadWords.InvalidFollowsWords | vllm/vllm/logits_process.py:106-112 | the report follows the words in order |
| BadWords.InvalidFollowsTokens | vllm/vllm/logits_process.py:109-112 | it follows the tokens of a word in order, a token being in it iff it is outside the vocabulary |
| BadWords.EndsAtByPrefix | vllm/vllm/logits_process.py:73-83 | a word ends with the next token iff its last token is that token and the past ends with the rest |
| BadWords.BiasesMask | vllm/vllm/logits_process.py:85 | the sum of logits and both biases masks exactly the tokens that complete a bad word |
| BadWords.GeneratedIsClean | vllm/vllm/logits_process.py:56-87 | tokens can be generated iff the logits allow each of them and no bad word ends among them |
| BadWords.NoBadWordOccurs | vllm/vllm/logits_process.py:56-87 | no bad word is a contiguous part of what is generated |
| Quantization.ErrorBound | vllm/vllm/_xpu_ops.py:214-236 | every quantised value is in range and is recovered up to half a step, symmetric or not, for every rounding to nearest |
| Quantization.ScaleJustFits | vllm/vllm/_xpu_ops.py:221-229 | the scale is the one at which the reach of the row just fits the largest value, or 1e-5 if that is larger |
| Quantization.RangeHoldsAllWords | vllm/vllm/_xpu_ops.py:219-220 | the range holds as many values as there are words of that many bits |
| Quantization.InRange | vllm/vllm/_xpu_ops.py:219-235 | before rounding a value exceeds the range by at most half a step |
| Quantization.HalfEvenRounds | vllm/vllm/_xpu_ops.py:230-233 | rounding half to even is a rounding to nearest |
| Quantization.QuantizeDequantized | vllm/vllm/_xpu_ops.py:232-236 | a dequantised value is quantised to itself |
| Quantization.FitsEightBits | vllm/vllm/_xpu_ops.py:219-236 | the range fits the eight-bit result iff at most eight bits are asked for |
| Quantization.ZeroPointFitsIff | vllm/vllm/_xpu_ops.py:229-230 | the zero point survives its conversion to 32 bits iff the least value is less than 2147483647.5 steps from zero |
| Quantization.ZeroPointCanExceedInt32 | vllm/vllm/_xpu_ops.py:230 | a flat row whose zero point does not fit |
| GatherLookup.LookupIsOwner | vllm/vllm/_xpu_ops.py:489-494 | the index found is the one sequence that owns the token, and the clamp does not change it |
| GatherLookup.ClampOnlyPastTheEnd | vllm/vllm/_xpu_ops.py:493-494 | the clamp takes effect iff the token is behind the last sequence |
| GatherLookup.PlaceInSequence | vllm/vllm/_xpu_ops.py:497 | the place in the sequence is between one and the sequence's length |
| GatherLookup.ReadsShiftedBlock | vllm/vllm/_xpu_ops.py:499-504 | the last token of a block is read a whole block further on, any other from its own slot |
| GatherLookup.ReadRightIff | vllm/vllm/_xpu_ops.py:499-504 | a token is read from its own slot iff it is not the last of a block |
| GatherLookup.BatchReadRightIff | vllm/vllm/_xpu_ops.py:489-504 | a batch is read right iff none of its sequences fills a block |
| GatherLookup.KeyReadBackIff | vllm/vllm/_xpu_ops.py:453-521 | the address a key is read from is the one it was written to iff it is in the first of several slots of its block |
| GatherLookup.ScaleReadBackIff | vllm/vllm/_xpu_ops.py:453-532 | the same for the scale of the token |
| TopK.TopKPerRowDecode | vllm/vllm/_xpu_ops.py:570-594 | each row gets distinct visible positions with the largest logits and the filler elsewhere, at least as many as asked for or finite and at most as many as visible; other cells are untouched |
| TopK.KeptEntries | vllm/vllm/_xpu_ops.py:583-591 | entries are distinct visible positions or the filler, and no visible position left out is larger |
| TopK.SelectsEnough | vllm/vllm/_xpu_ops.py:585-591 | at least the lesser of k and the number of finite visible logits, at most the lesser of k and the visible length |
| TopK.AllFiniteVisible | vllm/vllm/_xpu_ops.py:583-591 | with finite visible logits the two bounds agree |
| TopK.EndOfQuery | vllm/vllm/_xpu_ops.py:579-581 | each query of a sequence sees up to its own position, the last one up to the end |
| TopK.LargestIsSelection | vllm/vllm/_xpu_ops.py:587 | a selection of largest entries exists |
| IndexRanges.FormatIndexRanges | vllm/vllm/model_inspection.py:44-58 | fails iff the list is empty; otherwise the text of the ranges of the sorted list |
| IndexRanges.PrintedReadsBack | vllm/vllm/model_inspection.py:44-58 | reading the text and writing its ranges out gives the sorted list, and no two ranges could be printed as one |
| IndexRanges.PrintedApart | vllm/vllm/model_inspection.py:44-58 | for distinct indices the printed ranges are disjoint, in order and not adjacent |
| IndexRanges.RangesWriteOut | vllm/vllm/model_inspection.py:48-57 | the ranges of a list, written out, are the list |
| IndexRanges.RangesMaximal | vllm/vllm/model_inspection.py:50-55 | no range goes on where the one before it ends |
| IndexRanges.RangesOfWritten | vllm/vllm/model_inspection.py:48-57 | conversely, maximal ranges are the ranges of the list they stand for |
| IndexRanges.ReadText | vllm/vllm/model_inspection.py:54-58 | the printed text of ranges reads back as these ranges, negative numbers included |
| IndexRanges.DocumentedText | vllm/vllm/model_inspection.py:45 | the notation of the documentation |
| ModuleTree.SignatureDetermines | vllm/vllm/model_inspection.py:36-41 | if no child name contains a colon, two signature texts are equal iff the modules are identical in structure, names and descriptions |
| ModuleTree.NamesCollide | vllm/vllm/model_inspection.py:36-41 | a child whose name contains a colon and a line break gives the signature of a different module with two children, for all names and descriptions |
| ModuleTree.InfoIsPlain | vllm/vllm/model_inspection.py:8-33 | descriptions contain no line breaks |
| ModuleTree.CollidingChildrenCollapse | vllm/vllm/model_inspection.py:104-107 | two different numbered children with one signature fall into one group |
| ModuleTree.GroupsAreAlike | vllm/vllm/model_inspection.py:104-107 | each group holds exactly the children with its signature, in order; one group per signature |
| ModuleTree.GroupsConserve | vllm/vllm/model_inspection.py:104-107 | every numbered child is in exactly one group |
| ModuleTree.GroupsAreIdentical | vllm/vllm/model_inspection.py:104-113 | a child is in a group iff it is identical to the module printed for the group |
| PrintedTree.Restored | vllm/vllm/model_inspection.py:78-128 | if no name contains a colon, reading a printed module gives the module, through all levels, up to the order and the spelling of the names of its numbered children |
| PrintedTree.PrintDeterminesTidy | vllm/vllm/model_inspection.py:78-128 | modules whose numbered children come first, in order and under their numbers are printed alike iff they are equal |
| PrintedTree.MixIsLost | vllm/vllm/model_inspection.py:92-128 | modules with the same numbered and the same named children are printed alike, however the two are mixed |
| PrintedTree.SortedGroups | vllm/vllm/model_inspection.py:109-110 | the groups are printed in the order of the indices of their first children |
| PrintedTree.OrderIsLost | vllm/vllm/model_inspection.py:92-128 | two different modules that are printed alike |
| PrintedTree.CollisionIsLost | vllm/vllm/model_inspection.py:103-124 | of two different layers with one signature the second is lost: the module is printed as if the first came twice |
| PrintedTree.TidyIsNormal | vllm/vllm/model_inspection.py:92-99 | such modules are equal if they are so up to the order of their numbered children |
| PrintedTree.EntriesTell | vllm/vllm/model_inspection.py:103-124 | the printed groups together tell every numbered child with its index, and nothing else |
| PrintedTree.EntryTells | vllm/vllm/model_inspection.py:110-123 | the text of a group of identical children and their representative tell every one of them |
| PrintedTree.CountsAddUp | vllm/vllm/model_inspection.py:117-123 | the printed counts add up to the number of numbered children |
| PrintedTree.CountIsOfText | vllm/vllm/model_inspection.py:117-123 | every printed count is the number of indices in its text |
| PrintedTree.SplitChildren | vllm/vllm/model_inspection.py:93-99 | numbered and named children, in order |
| PrintedTree.GroupNumbered | vllm/vllm/model_inspection.py:104-107 | the groups by signature, in order of first appearance |
| PrintedTree.FormatLabel | vllm/vllm/model_inspection.py:117-123 | the text of a group's indices |
| PrintedTree.FormatGroups | vllm/vllm/model_inspection.py:110-124 | one entry per group, with the printed representative |
| PrintedTree.FormatNamed | vllm/vllm/model_inspection.py:126-128 | one printed tree per named child |
| PrintedTree.FormatModuleTree | vllm/vllm/model_inspection.py:61-131 | the printed tree, from which the module can be restored |

## Left out

- GraphPartition.PartitioningPreservesMeaning: ordered sets are sets, so the order of inputs and outputs in a signature is not modelled; symbol inputs are left out. Constants are not mutated; `MutatedConstantMisses` says what becomes of it. An alias without a layout that is not a mutation output, while its real buffer is allocated, is excluded: the code drops it from the inputs, and what its node reads then is not defined.
- `memory_plan_reuse_patched` and `should_partition_patched` in `vllm/vllm/env_override.py`: version gating and planning by classes that are not part of this model.
- NinjaLog.ReadTargets: splitting a line into fields and reading its integers is abstracted to the kinds of lines that can result.
- Extensions, grouping by type and printing in the ninja report: formatting only.
- `ensure_context`, the CUDA branches, Python objects and the allocation of C arrays in `vllm/csrc/cumem_allocator.cpp`: foreign calls without arithmetic or rollback.
- CumemAllocator.Runtime.Free: the part of `my_free` after its arguments have been unpacked.
- RequestOutputs.RequestOutput.Add: token and log probability lists are values, so two completions sharing one list object is not modelled; the completion objects themselves are shared as in the source and have to be different.
- `get_bad_words_logits_processors`: depends on a tokenizer.
- BadWords.NoBadWordsLogitsProcessor.Call: the vocabulary has the same size in all calls, as the first call fixes the size of the bias.
- Quantization.ErrorBound: rounding of the scale to the input's type and the conversions of the results to machine integers are not modelled; `FitsEightBits` and `ZeroPointFitsIff` say when the latter are exact. One symmetric bit is excluded, because the scale then divides by zero.
- GatherLookup.KeyReadBackIff: the cache is contiguous and slots are numbered block by block, as the callers in the tests do, and there is one scale of four bytes per token; copying the bytes is left out.
- `top_k_per_row_prefill`, the attention wrappers and the operator registration in `vllm/vllm/_xpu_ops.py`: thin wrappers.
- ModuleTree.SignatureDetermines: modules are trees, so a submodule shared by two parents, which PyTorch lists once, is not modelled.
- PrintedTree.Restored: the printed tree is a tree of descriptions, index texts and counts; its layout in indented lines is not modelled, nor is the text that Python accepts as an integer.
- `vllm/vllm/forward_context.py`: one-line sizes and a save-and-restore of a global, which would only add easy members.
