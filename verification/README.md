# Verification of the algorithmic core

A Dafny model of the parts of this repository that compute rather than call out: the build-time
report, the graph-partition signatures, the block selection, the bad-words mask, the flat log-probability
container, the rate limiter, the chunked device allocator, the scalar types, the chunk arithmetic of
sequence-parallel runs, and the merging of streamed outputs. `dafny verify dfyconfig.toml` checks it.

Code that updates state is modelled as classes and methods with loops, each proved against a
specification that does not mention the loop; the properties are lemmas about that specification.

## Components

- **Build report** (`Timeline`, `BuildEvents`, `BuildReport`, `NinjaLog`). The sweep over start and stop
  events keeps a running clock and charges every step the clock's advance between its two events. The
  reference notion is the measure of a union of intervals, defined by inclusion and exclusion and blind to
  the order of events. The sweep's charges add up to exactly this measure. Reading the log keeps exactly the
  last build and groups it by command.
- **Partition signatures** (`PartitionSignature`, `PartitionMeaning`, `PartitionLiveness`). The backward pass over the
  partitions is a loop proved equal to a recursion, and `PartitionMeaning` says of every name whether a signature
  lists it, by the nodes of the partitions alone. Running the partitions in order on an environment of live buffers
  gives the semantics against which the signatures are sound: signing a compiled graph and running it finds every
  input, unless a partition frees a buffer of another that was never allocated. Real names
  (`mutation_real_name`) are included; whether a buffer is allocated is followed through chains of them.
- **Block selection** (`BlockSelection`, `TokenSelection`, `CompactedSequence`, `TensorParallel`). Sort,
  cumulative sum, threshold, scatter, forced ends, token mask, gathers, and the variant in which every rank
  averages over its own heads. Scores and probabilities are reals.
- **Bad words** (`BadWords`). Logits are finite reals, the two infinities, or NaN. The two additive biases are
  proved equal to a suffix test, and the suffix test gives safety over whole generation runs.
- **Flat log probabilities** (`FlatLogprobsContainer`). A class of four columns and two lists of positions,
  refining a list of insertion-ordered dictionaries.
- **Rate limiter** (`RateLimiting`). One round of `acquire` runs under the lock, so a run is a sequence of
  rounds at non-decreasing clock readings, whichever task each belongs to.
- **Chunked allocator** (`ChunkSizing`, `ChunkedMapping`). Sizes in 64-bit unsigned arithmetic with the
  wrap-around written out; mapping and unmapping over a driver in which any call may fail.
- **Scalar types** (`ScalarTypes`, `ScalarTypeIds`). Values follow section 3.4 of IEEE 754-2019.
- **Chunks and shards** (`ForwardChunks`).
- **Output merging** (`OutputMerging`, `OutputFolding`, `OutputStreams`, `RequestOutputs`, `OutputCollector`). Merging
  on values: exactly when its two groupings agree and when its assertion fails, and what a whole stream folds into,
  by the position of its pieces. Merging on objects that may be shared: which objects are held, and
  what later merges do to them.

`Arithmetic`, `Options` and `FirstAppearance` hold what several components need.

## Where the code does not do what one would expect

Each of these is proved with the exact condition under which the expectation does hold; where an example is named as
well, it is an instance.

- The sentinel -1 for "no start seen" forgets a negative start: `BuildEvents.EarliestIsExact`. The initial 0 for the
  latest end is wrong when everything ends before time 0: `BuildEvents.LatestIsExact`. Instances:
  `BuildEvents.EarliestForgetsNegativeStart`, `BuildEvents.LatestForgetsNegativeEnd`.
- A step that stops before it starts makes the report raise KeyError: `BuildReport.SummarizeEntries`.
- The comment at lines 155-156 of `vllm/env_override.py` says that a fake dependency (WeakDep) should not become a
  partition input; the code does not tell the two kinds apart. The model follows the code. Its inputs are
  those the comment wants iff every allocated buffer from outside that has a fake dependency is also read, written or
  freed by the partition: `PartitionLiveness.WeakDepsAreTakenIff`.
- A buffer that is never allocated becomes a partition input when the partition frees it without making it. Such an
  input is never there; all inputs are there iff no partition does so: `PartitionLiveness.InputsArePresent`.
- The last `last_n` tokens are not always kept, because padding shortens the last block. For every alpha they are iff
  the forced blocks reach the first of them or alpha is at least 1: `CompactedSequence.LastTokensKeptIff`. With the
  default alpha and sizes and 257 tokens, one of the last 128 can go: `CompactedSequence.DefaultsCanDropALastToken`.
- A bad word whose logit is +inf or NaN becomes NaN, not -inf: `BadWords.MaskIsExactIff`.
- Sleeping for exactly the computed wait is refused again, since the refill asks for more than a second; a later round
  is served iff it comes after the end of the wait: `RateLimiting.LaterRoundIsServedIff`.
- The largest-value pattern of a type with one exponent bit and IEEE NaNs is not a value of the type, nor is it when a
  type without IEEE NaNs uses its largest code for infinity: `ScalarTypes.MaxIsLargestFiniteIff`. With no mantissa bits
  and `EXTD_RANGE_MAX_MIN` the pattern is negative and cannot be packed: `ScalarTypes.PatternResultsIff`.
- Two types whose biases differ by a multiple of 2^32, or whose widths differ by a multiple of 2^8, share an id if they
  are otherwise equal, and from_id finds only the last: `ScalarTypeIds.SameIdIff`, `ScalarTypeIds.RoundTripIff`.
- The largest chunk setting, and sizes near 2^64, wrap around: `ChunkSizing.AlignedChunkIsPositiveIff`,
  `ChunkSizing.ChunksCoverIff`, with `ChunkSizing.LargestSettingWraps` and `ChunkSizing.LargeChunkCoversNothing`.
- Merging is not associative: a piece without log probabilities can hide those of a later piece from the assertion.
  One grouping merges iff the other does and no index has a list in the first output, none in the second, and values
  in the third: `OutputMerging.GroupingsAgreeIff`. When it does, the results are equal.
- After an append, two outputs hold the same completion object, so a later merge into the one shows in the other. The
  shared objects are exactly those with a new index (`RequestOutputs.HeldIffNew`), and of these exactly the ones whose
  index comes again end in the later piece (`RequestOutputs.LaterAddsReachNewIndices`).

## Model

| member | source | states |
|---|---|---|
| BuildReport.SummarizeEntries | vllm-releases-v0.16.0/tools/report_build_time_ninja.py:198-256 | IndexError iff there are no entries; KeyError iff some entry ends before it starts; otherwise every entry is charged exactly its fair share, the charges sum to the measure of the union of the intervals, and the length and CPU time are those of the window and the durations |
| BuildReport.ScanEvents | vllm-releases-v0.16.0/tools/report_build_time_ninja.py:230-256 | the scan succeeds iff no step ends before it starts; then each step has its share and the total is the union measure, computed without looking at the running counter |
| BuildReport.ProcessEvent | vllm-releases-v0.16.0/tools/report_build_time_ninja.py:238-255 | one event keeps the scan state: who is running, the clock as the sum of gap over number running, the charges so far; it fails only for a step that stops before it starts |
| BuildReport.StopTarget | vllm-releases-v0.16.0/tools/report_build_time_ninja.py:248-254 | a stop event charges the step its whole share, removes it, and is a missing key iff the step stops before it starts |
| BuildReport.Settle | vllm-releases-v0.16.0/tools/report_build_time_ninja.py:252 | recording one charge keeps all charges recorded before it |
| BuildReport.RunningCount | vllm-releases-v0.16.0/tools/report_build_time_ninja.py:241-244 | across a gap of positive length the size of running_tasks is the number of intervals that span the gap |
| BuildReport.CountSpanning | vllm-releases-v0.16.0/tools/report_build_time_ninja.py:230-244 | any set of keys that are exactly the entries spanning a gap has as many elements as there are spanning intervals |
| BuildReport.ActiveSpans | vllm-releases-v0.16.0/tools/report_build_time_ninja.py:223-230 | started and not yet stopped means spanning the next gap, whatever the order of simultaneous events |
| BuildReport.EventStep | vllm-releases-v0.16.0/tools/report_build_time_ninja.py:224-229 | a stop event finds its start in front of it iff the step does not end before it starts, so starts sort before stops at equal times |
| BuildReport.ScanStart | vllm-releases-v0.16.0/tools/report_build_time_ninja.py:245-247 | a start event keeps the scan state: the clock recorded at the start is what the share is measured from |
| BuildReport.ScanStop | vllm-releases-v0.16.0/tools/report_build_time_ninja.py:248-254 | clock now minus clock at the start is the share of the step over its whole life, and the total grows by it |
| BuildReport.ScanEnds | vllm-releases-v0.16.0/tools/report_build_time_ninja.py:256 | after the last event nothing is running, every step has stopped, and the total is the union measure |
| BuildReport.PaidAllIsUnion | vllm-releases-v0.16.0/tools/report_build_time_ninja.py:249-253 | once every step has stopped, the charges add up to the measure of the union |
| BuildReport.FairShareBounds | vllm-releases-v0.16.0/tools/report_build_time_ninja.py:82-89 | a fair share is between 0 and the duration of the step, so the assertion in WeightedDuration holds without the epsilon |
| BuildReport.CpuTimeIsWork | vllm-releases-v0.16.0/tools/report_build_time_ninja.py:198-265 | for any sorted list of instants holding all endpoints the CPU time is the number of running steps summed up over the gaps; the weighted total is at most that, and equal iff no two steps ever run at once |
| BuildReport.TotalDurationAdds | vllm-releases-v0.16.0/tools/report_build_time_ninja.py:209-218 | CPU time is additive over lists of steps, and that of one step is its end minus its start |
| BuildReport.WindowIsFirstToLastInstant | vllm-releases-v0.16.0/tools/report_build_time_ninja.py:209-220 | whenever earliest and latest are the least start and the greatest end, they are the first and the last event time |
| BuildReport.NonNegativeWindowIsExact | vllm-releases-v0.16.0/tools/report_build_time_ninja.py:209-216 | steps from time 0 on meet that condition |
| BuildReport.WeightedTotalAtMostLength | vllm-releases-v0.16.0/tools/report_build_time_ninja.py:220-265 | and then the weighted total is between 0 and the length of the build, and equals it iff every instant of the build is covered by some step |
| Timeline.SharesConserveBusyTime | vllm-releases-v0.16.0/tools/report_build_time_ninja.py:238-255 | the even shares of all intervals over the first k gaps add up to the length of the gaps that are covered, for every k |
| Timeline.BusyIsUnionMeasure | vllm-releases-v0.16.0/tools/report_build_time_ninja.py:201-206 | the covered gaps of any sorted list of instants holding all endpoints have the total length of the union by inclusion and exclusion |
| Timeline.SharesAddUpToUnion | vllm-releases-v0.16.0/tools/report_build_time_ninja.py:249-253 | conservation of time: the shares add up to the union measure, for any such list of instants |
| Timeline.BusyInclusionExclusion | vllm-releases-v0.16.0/tools/report_build_time_ninja.py:201-206 | covered time obeys inclusion and exclusion, one interval at a time |
| Timeline.BusySingle | vllm-releases-v0.16.0/tools/report_build_time_ninja.py:201-206 | the gaps spanned by one interval telescope to the part of it in front of an instant |
| Timeline.ShareBounds | vllm-releases-v0.16.0/tools/report_build_time_ninja.py:74-83 | a share is never negative and never more than the interval is long |
| Timeline.ShareBeforeStart | vllm-releases-v0.16.0/tools/report_build_time_ninja.py:245-247 | nothing is charged for gaps in front of the start |
| Timeline.ShareAfterEnd | vllm-releases-v0.16.0/tools/report_build_time_ninja.py:248-251 | nothing is charged for gaps behind the end |
| Timeline.BusyAtMostElapsed | vllm-releases-v0.16.0/tools/report_build_time_ninja.py:258-265 | covered time is at most elapsed time, and equal iff no gap of positive length is idle |
| Timeline.WorkIsTotalLength | vllm-releases-v0.16.0/tools/report_build_time_ninja.py:238-255 | the number running, summed up over the gaps, is the sum of the lengths of the intervals |
| Timeline.BusyAtMostWork | vllm-releases-v0.16.0/tools/report_build_time_ninja.py:238-255 | covered time is at most that sum, and equal iff no gap of positive length is spanned twice |
| Timeline.NoIdleGapMeansCovered | vllm-releases-v0.16.0/tools/report_build_time_ninja.py:258-265 | no gap is idle iff every point between the first and the last instant lies in some interval |
| Timeline.RunningPositive | vllm-releases-v0.16.0/tools/report_build_time_ninja.py:241-242 | the number running is positive iff some interval spans the gap |
| Timeline.RatesAddUp | vllm-releases-v0.16.0/tools/report_build_time_ninja.py:244 | the running tasks together are charged the whole gap |
| BuildEvents.SortEventsSorts | vllm-releases-v0.16.0/tools/report_build_time_ninja.py:224 | sorting by time, start before stop, yields an ordered permutation of the events |
| BuildEvents.EventsAre | vllm-releases-v0.16.0/tools/report_build_time_ninja.py:212-224 | the sorted list holds one start and one stop for every entry, in order, and nothing else |
| BuildEvents.EarliestIsExact | vllm-releases-v0.16.0/tools/report_build_time_ninja.py:209-214 | earliest is the least start iff no start is negative or the last start is the least |
| BuildEvents.EarliestForgetsNegativeStart | vllm-releases-v0.16.0/tools/report_build_time_ninja.py:209-214 | two steps in negative time for which earliest is not the least start |
| BuildEvents.LatestIsExact | vllm-releases-v0.16.0/tools/report_build_time_ninja.py:210-216 | latest is the greatest end iff some end is not negative |
| BuildEvents.LatestForgetsNegativeEnd | vllm-releases-v0.16.0/tools/report_build_time_ninja.py:210-216 | one step in negative time for which latest is the initial 0, at which nothing ends |
| NinjaLog.ReadTargets | vllm-releases-v0.16.0/tools/report_build_time_ninja.py:104-148 | a wrong header is an assertion error, a number that does not parse a ValueError; otherwise the targets are new, distinct objects, one for each command of the kept records in order of first appearance, with the first record's times and all names in log order |
| NinjaLog.RecordsAre | vllm-releases-v0.16.0/tools/report_build_time_ninja.py:113-121 | the records are those of exactly the well-formed lines, in the order of the log |
| NinjaLog.SecondsAreExact | vllm-releases-v0.16.0/tools/report_build_time_ninja.py:122-123 | times in seconds, times 1000, are the milliseconds of the log |
| NinjaLog.ReadLines | vllm-releases-v0.16.0/tools/report_build_time_ninja.py:113-147 | the loop stops at the first bad number and otherwise holds the groups of the kept records, each in an object of its own |
| NinjaLog.TakeLine | vllm-releases-v0.16.0/tools/report_build_time_ninja.py:113-147 | one line: corrupt lines change nothing, a record resets or not and joins its group |
| NinjaLog.ResetIfNewBuild | vllm-releases-v0.16.0/tools/report_build_time_ninja.py:123-142 | the dictionary is emptied iff the end time went back or a known command has other times, and never with show_all |
| NinjaLog.AddRecord | vllm-releases-v0.16.0/tools/report_build_time_ninja.py:143-147 | a known command gets the name appended in place, a new one an object of its own; no other object changes |
| NinjaLog.StateIsGrouping | vllm-releases-v0.16.0/tools/report_build_time_ninja.py:113-147 | for every prefix of the log the loop state is the grouping of the kept records of that prefix |
| NinjaLog.TestsDecide | vllm-releases-v0.16.0/tools/report_build_time_ninja.py:123-142 | the two tests together decide whether the record continues the build |
| NinjaLog.GroupsAre | vllm-releases-v0.16.0/tools/report_build_time_ninja.py:120-148 | grouping one record at a time gives for each hash, in order of first appearance, its first record and its names |
| NinjaLog.HashesAreThoseRecorded | vllm-releases-v0.16.0/tools/report_build_time_ninja.py:143-148 | a command is listed iff some record has it |
| NinjaLog.HashesInOrder | vllm-releases-v0.16.0/tools/report_build_time_ninja.py:120-148 | the commands stand in the order in which they are first recorded |
| NinjaLog.FirstIsRecorded | vllm-releases-v0.16.0/tools/report_build_time_ninja.py:143-147 | the record that gives a command its times is the first with its hash |
| NinjaLog.NamesAre | vllm-releases-v0.16.0/tools/report_build_time_ninja.py:143-147 | the names of a command are those of exactly the records with its hash, in the order of the log |
| NinjaLog.AllAreKept | vllm-releases-v0.16.0/tools/report_build_time_ninja.py:123-142 | with show_all every record is kept |
| NinjaLog.KeptIsSuffix | vllm-releases-v0.16.0/tools/report_build_time_ninja.py:123-142 | without it the kept records are the end of the log, and not empty unless the log is |
| NinjaLog.KeptIsOneBuild | vllm-releases-v0.16.0/tools/report_build_time_ninja.py:123-142 | the kept records are one build |
| NinjaLog.OneBuildIff | vllm-releases-v0.16.0/tools/report_build_time_ninja.py:126-141 | one build means: end times never go back, and a command has one start and one end |
| NinjaLog.CutWhereNotContinued | vllm-releases-v0.16.0/tools/report_build_time_ninja.py:123-142 | for every prefix of the log: the record at which its last build starts does not continue what was kept before |
| NinjaLog.LastBuildIsMaximal | vllm-releases-v0.16.0/tools/report_build_time_ninja.py:123-142 | the build before the kept one could not have gone on: with the next record it is not one build |
| NinjaLog.GroupHasItsRecordsSpan | vllm-releases-v0.16.0/tools/report_build_time_ninja.py:131-147 | every record of one build has the times its command is reported with |
| NinjaLog.ReportBuild | vllm-releases-v0.16.0/tools/report_build_time_ninja.py:315-318 | a log from time 0 on whose records never end before they start is summarized without an exception, with a weighted total between 0 and the length; the report of an empty log is an IndexError |
| PartitionSignature.GetSignatures | vllm-releases-v0.16.0/vllm/env_override.py:102-240 | flags and partitions are paired from the back; the result is that of the backward recursion in forward order, or the KeyError; what its signatures list is stated name by name in SignByName |
| PartitionSignature.SignBackwards | vllm-releases-v0.16.0/vllm/env_override.py:139-240 | the loop over the reversed lists and the final reversal compute the recursion, or stop at the KeyError |
| PartitionSignature.SignPartition | vllm-releases-v0.16.0/vllm/env_override.py:142-238 | one round: inputs, freed inputs, returned and allocated outputs, constants, and the names still needed in front |
| PartitionSignature.CollectNames | vllm-releases-v0.16.0/vllm/env_override.py:142-174 | the loop collects the outputs, dependencies and last uses; OutputsAre, FreedAre and DepsAre say which names these are |
| PartitionSignature.Graph.IsNoneLayoutRecurses | vllm-releases-v0.16.0/vllm/env_override.py:119-137 | is_none_layout is its own recursion: no buffer, no layout, or a mutation of a buffer that is itself without layout, for every chain of real names that ends |
| PartitionSignature.Graph.StepsAreEnough | vllm-releases-v0.16.0/vllm/env_override.py:119-137 | a chain that ends does so within as many steps as there are buffers, so the recursion of the source terminates on it with the answer of the model |
| PartitionMeaning.SignByName | vllm-releases-v0.16.0/vllm/env_override.py:102-240 | name by name, for the last min(partitions, flags) partitions: inputs are the taken names with a node, deallocated those of them that some node of the partition frees, outputs the returned and allocated names, constants the taken names that are constants, and the flag is the one at the same place from the end; KeyError iff some returned, allocated name has no node |
| PartitionMeaning.OutputsAre | vllm-releases-v0.16.0/vllm/env_override.py:142-145 | a name is made by a partition iff some node of it outputs it |
| PartitionMeaning.FreedAre | vllm-releases-v0.16.0/vllm/env_override.py:172-174 | a name is freed iff it is a last use of some node |
| PartitionMeaning.DepsAre | vllm-releases-v0.16.0/vllm/env_override.py:149-166 | a name is touched iff some node reads or writes it or has a fake dependency on it |
| PartitionMeaning.TakesIff | vllm-releases-v0.16.0/vllm/env_override.py:155-184 | a name is taken iff it is the real name of an allocated buffer that a node touches and none makes, or has a node and is freed here but not made here |
| PartitionMeaning.UnmetAreWanted | vllm-releases-v0.16.0/vllm/env_override.py:197-238 | the unmet names in front of a partition are those that it, a later partition or the caller takes and that no partition in between returns |
| PartitionMeaning.SignaturesMean | vllm-releases-v0.16.0/vllm/env_override.py:197-240 | every signature of the recursion lists exactly those names, constants and the flag of its partition |
| PartitionMeaning.ReturnedHaveNodesIff | vllm-releases-v0.16.0/vllm/env_override.py:213-217 | no lookup fails iff no partition returns an allocated name without a node |
| PartitionLiveness.InputsArePresent | vllm-releases-v0.16.0/vllm/env_override.py:155-239 | for every compiled graph and every run: each partition finds all its inputs in the environment iff no partition frees a buffer that it does not make and that is never allocated |
| PartitionLiveness.GraphOutputsArePresent | vllm-releases-v0.16.0/vllm/env_override.py:197-239 | at the end of a run the real buffer of a graph output is in the environment iff it is allocated |
| PartitionLiveness.ReturnedIffNeededLater | vllm-releases-v0.16.0/vllm/env_override.py:197-217 | an allocated buffer made by a partition is returned iff it, or a mutation of it made there, is a graph output or an input of a later partition |
| PartitionLiveness.FreedStaysFreed | vllm-releases-v0.16.0/vllm/env_override.py:172-195 | no use after free: a name freed by a partition is in no later environment |
| PartitionLiveness.NeededIsLive | vllm-releases-v0.16.0/vllm/env_override.py:236-238 | whatever is still unmet, already made and allocated is in the environment, at every point of a run |
| PartitionLiveness.EnvIsAllocated | vllm-releases-v0.16.0/vllm/env_override.py:119-137 | nothing unallocated ever enters the environment, if no graph input is |
| PartitionLiveness.UnmetComesFrom | vllm-releases-v0.16.0/vllm/env_override.py:236-238 | an unmet name is a graph output or taken by a later partition |
| PartitionLiveness.UnmetStays | vllm-releases-v0.16.0/vllm/env_override.py:236-238 | a name that a later partition takes, or the caller, stays unmet back to its producer |
| PartitionLiveness.ProducedIsReturned | vllm-releases-v0.16.0/vllm/env_override.py:207-211 | a buffer made by a partition is returned when its name, or that of a mutation of it, is unmet behind the partition |
| PartitionLiveness.FreedIsNotNeeded | vllm-releases-v0.16.0/vllm/env_override.py:172-195 | a name freed by a partition is not the real name of anything unmet behind it |
| PartitionLiveness.MutationFollows | vllm-releases-v0.16.0/vllm/env_override.py:209-211 | a mutation of a buffer is made with it, or by a later partition that takes the buffer |
| PartitionLiveness.SignaturesFromAreSignatures | vllm-releases-v0.16.0/vllm/env_override.py:225-234 | the computed signatures are the inputs, outputs and freed inputs that a run is defined on |
| PartitionLiveness.FlowsTakeRealNames | vllm-releases-v0.16.0/vllm/env_override.py:168-184 | every name taken from outside is its own real name, if freed names are |
| PartitionLiveness.UnallocatedInputIff | vllm-releases-v0.16.0/vllm/env_override.py:157-184 | an unallocated name is an input name of a partition iff the partition frees it, does not make it, and it has a node |
| PartitionLiveness.TakesAllocatedIff | vllm-releases-v0.16.0/vllm/env_override.py:157-184 | no partition takes an unallocated name iff none frees a buffer of another that is never allocated |
| PartitionLiveness.WeakDepIsTaken | vllm-releases-v0.16.0/vllm/env_override.py:155-166 | in particular a fake dependency on an outside, allocated buffer makes it an input like any other |
| PartitionLiveness.WeakDepsAreTakenIff | vllm-releases-v0.16.0/vllm/env_override.py:155-166 | ignoring fake dependencies gives the same input names iff every outside, allocated buffer with one has a real name that is also read or written under an allocated outside name, or freed by the partition without being made by it |
| PartitionLiveness.CompiledHasNodes | vllm-releases-v0.16.0/vllm/env_override.py:207-217 | on a compiled graph every returned, allocated name has a node: the KeyError is never raised |
| PartitionLiveness.SignAndRun | vllm-releases-v0.16.0/vllm/env_override.py:102-240 | end to end: signing a compiled graph raises nothing and gives one signature for each partition; running by them misses no input iff no partition frees a foreign buffer that is never allocated; it leaves exactly the allocated graph outputs and never uses a freed name again |
| PartitionLiveness.UnallocatedFreedInputIsMissing | vllm-releases-v0.16.0/vllm/env_override.py:176-184 | a compiled graph of two partitions on which an unallocated, freed input is missing |
| TokenSelection.SelectTokens | native_imp.py:55-95 | for every scores: some descending order and its nucleus size determine which tokens are kept, namely those of forced and nucleus blocks; the new length counts them and the cumulative lengths are 0 and that count |
| TokenSelection.SelectBlocks | native_imp.py:66-80 | a block is kept iff it is at a forced end or among the first k of the order |
| TokenSelection.NucleusMask | native_imp.py:68-77 | sort, cumulative sum, threshold, forced first flag and scatter mark exactly the first k blocks of a descending order, k being the nucleus size |
| TokenSelection.Scatter | native_imp.py:76-77 | the flag at place j of the order goes to the block at that place |
| TokenSelection.ForceBlocks | native_imp.py:79-80 | exactly the sink blocks and the last blocks are added to the mask |
| TokenSelection.SortDescending | native_imp.py:68 | the sort returns a permutation under which the values descend |
| TokenSelection.ThresholdIsNucleus | native_imp.py:70-74 | the threshold flags with the first one forced are a prefix: the longest with mass at most alpha, or the first block alone |
| TokenSelection.NucleusSizeIsUnique | native_imp.py:70-74 | sorted probabilities and alpha determine the size of the nucleus |
| TokenSelection.TokenMask | native_imp.py:83-85 | the mask, built by repeating every flag and cutting at the sequence length, has one flag for each token: that of its block |
| TokenSelection.ExpandAt | native_imp.py:83-84 | repeating and flattening puts the flag of block t / block_size at position t |
| BlockSelection.NucleusIsOptimal | native_imp.py:66-77 | no block outside outscores one inside; no set of the same size has more mass; the mass is at most alpha unless it is one block; adding the best block left exceeds alpha |
| BlockSelection.NucleusIsHeaviest | native_imp.py:68-77 | any set of blocks has at most the mass of as many blocks from the front of a descending order |
| BlockSelection.NucleusCountAndMass | native_imp.py:70-77 | the scattered mask has k blocks and the mass of the first k in the order |
| BlockSelection.FirstAreHeaviest | native_imp.py:68-72 | in a descending list no selection outweighs the prefix of the same size |
| BlockSelection.SumOfPermutation | native_imp.py:66-77 | a sum does not depend on the order of its terms |
| CompactedSequence.SelectionKeepsBothEnds | native_imp.py:55-85 | every selection keeps the sink tokens, the tail that the last blocks cover, and hence the last last_n - (block_size - 1) tokens |
| CompactedSequence.TailTokens | native_imp.py:80-85 | a token lies in a forced last block iff it is among the last ceil(last_n / block_size) * block_size - padding tokens |
| CompactedSequence.TailLengthBounds | native_imp.py:46-56 | the tail is longer than last_n - block_size, shorter than last_n + block_size, and at least last_n when the block size divides the length |
| CompactedSequence.AlwaysKeptIff | native_imp.py:66-80 | with the given alpha a block is kept for all scores iff it is forced or alpha is at least 1 |
| CompactedSequence.AlwaysKeptAtIff | native_imp.py:62-80 | and for all scores of a given total T iff it is forced or T / (T + eps) is at most alpha |
| CompactedSequence.SpikeSelectsOne | native_imp.py:62-77 | a single block with score c takes the whole nucleus alone whenever c / (c + eps) exceeds alpha, whichever block it is |
| CompactedSequence.LastTokensKeptIff | native_imp.py:46-85 | with the given alpha all of the last last_n tokens are kept for all scores iff the tail is that long, the sink reaches the first of them, or alpha is at least 1 |
| CompactedSequence.DefaultsCanDropALastToken | native_imp.py:55-85 | block size 64, sink 128, last_n 128 and alpha 0.99 on 257 tokens: with all mass in the first block token 129 is dropped, even when the total is as small as 1/64 |
| CompactedSequence.CountIsKeptLength | native_imp.py:83-90 | the flags of a token mask add up to the total size of the kept blocks, the last one cut at the end of the sequence |
| CompactedSequence.SelectionLength | native_imp.py:83-95 | so the new length of a selection is that of the blocks it keeps, and its mask is theirs |
| CompactedSequence.PositionsAreTheKeptTokens | native_imp.py:85-90 | the kept positions increase, are as many as the new length, and are exactly the tokens the mask keeps |
| CompactedSequence.KeepGathers | native_imp.py:123 | indexing by the mask gathers the kept positions in order |
| CompactedSequence.GathersStayAligned | native_imp.py:123-128 | entry j of hidden states, cos and sin comes from one and the same token, for the kept tokens in order |
| TensorParallel.ReducedScoresScale | native_imp.py:43-64 | with equal head shards the summed block scores are the single-device scores times the number of ranks |
| TensorParallel.TokenScoreIs | native_imp.py:43-44 | the score of a token is the mean over the queries of the mean over the heads of its attention, 0 behind the sequence |
| TensorParallel.BlockScoreIs | native_imp.py:46-53 | the score of block b is the mean over its tokens b * block_size + j |
| TensorParallel.TensorParallelNucleusIsPrefix | native_imp.py:43-74 | any order that sorts the single-device probabilities sorts the tensor-parallel ones, and there the tensor-parallel nucleus is a prefix of the single-device one, equal when epsilon is 0 |
| TensorParallel.SharesGrow | native_imp.py:62-66 | multiplying all scores by the number of ranks can only raise every probability, and leaves it alone when epsilon is 0 |
| TensorParallel.NucleusShrinks | native_imp.py:70-74 | larger sorted probabilities have a nucleus that is no larger |
| TensorParallel.SortsScores | native_imp.py:66-68 | an order sorts the probabilities iff it sorts the scores |
| BadWords.NoBadWordsLogitsProcessor.Call | vllm-releases-v0.16.0/vllm/logits_process.py:56-87 | ValueError with the offending ids iff they are checked for the first time and not all in the vocabulary; IndexError iff a word is empty; otherwise -inf is added to exactly the tokens that complete a word; the cached bias stays valid for the next call |
| BadWords.NoBadWordsLogitsProcessor.LastTokenBias | vllm-releases-v0.16.0/vllm/logits_process.py:64-83 | the bias is -inf exactly at the last tokens of longer words whose other tokens end the past |
| BadWords.NoBadWordsLogitsProcessor.InitWordBias | vllm-releases-v0.16.0/vllm/logits_process.py:89-104 | the cached bias is -inf exactly at the one-token words, and is not set when ids are invalid |
| BadWords.NoBadWordsLogitsProcessor.CheckTokenIdsBounds | vllm-releases-v0.16.0/vllm/logits_process.py:106-121 | all ids outside the vocabulary, in order |
| BadWords.NoneInvalid | vllm-releases-v0.16.0/vllm/logits_process.py:106-114 | no id is reported iff all are in the vocabulary |
| BadWords.InvalidInOrder | vllm-releases-v0.16.0/vllm/logits_process.py:106-121 | the ids reported for two lists of words are those of the first and then those of the second |
| BadWords.InvalidOfWord | vllm-releases-v0.16.0/vllm/logits_process.py:106-121 | and within a word those of its front and then those of its rest |
| BadWords.InvalidOfToken | vllm-releases-v0.16.0/vllm/logits_process.py:106-114 | a single id is reported iff it is outside the vocabulary |
| BadWords.BiasesAreTheSuffixTest | vllm-releases-v0.16.0/vllm/logits_process.py:66-104 | a token is biased by one of the two forms iff some word is a suffix of the past followed by it |
| BadWords.MaskedIsNegInfIff | vllm-releases-v0.16.0/vllm/logits_process.py:85-87 | a masked logit below +inf is -inf iff it was before or its token completes a word |
| BadWords.PosInfEscapes | vllm-releases-v0.16.0/vllm/logits_process.py:85-87 | a logit of +inf becomes NaN where a word would be completed, and stays +inf elsewhere |
| BadWords.NaNStays | vllm-releases-v0.16.0/vllm/logits_process.py:85-87 | NaN stays NaN, and a logit that is finite or -inf is masked to -inf or kept |
| BadWords.MaskIsExactIff | vllm-releases-v0.16.0/vllm/logits_process.py:85-87 | a token is -inf exactly when it was before or completes a word, iff it completes none or its logit is finite or -inf; NaN included |
| BadWords.RunsNeverCompleteABadWord | vllm-releases-v0.16.0/vllm/logits_process.py:56-87 | over any run that picks tokens with masked logit above -inf, no word ends behind the start |
| BadWords.EveryCleanTextCanBePicked | vllm-releases-v0.16.0/vllm/logits_process.py:56-87 | and nothing else is forbidden: with finite logits any text that completes no word can be picked |
| BadWords.CleanRunContainsNoBadWord | vllm-releases-v0.16.0/vllm/logits_process.py:56-87 | a run from the empty text contains no word as a contiguous run |
| RateLimiting.RateLimiter.TryAcquire | vllm-releases-v0.16.0/benchmarks/disagg_benchmarks/rate_limiter.py:19-35 | one turn under the lock is one round of the specification: the reply and the whole new state |
| RateLimiting.FirstSecond | vllm-releases-v0.16.0/benchmarks/disagg_benchmarks/rate_limiter.py:12-36 | whenever a limiter is made, of the rounds in its first second the first `rate` are served at once and all others are told to wait for the end of that second |
| RateLimiting.RateBound | vllm-releases-v0.16.0/benchmarks/disagg_benchmarks/rate_limiter.py:17-36 | in any window of length L > 0 of any interleaving at most rate * (ceil(L) + 1) tokens are granted |
| RateLimiting.RefillsPayForGrants | vllm-releases-v0.16.0/benchmarks/disagg_benchmarks/rate_limiter.py:24-32 | from any round on, r refills span more than r - 1 seconds, and with the bucket at hand they pay for all tokens granted and left |
| RateLimiting.RateBoundIsReached | vllm-releases-v0.16.0/benchmarks/disagg_benchmarks/rate_limiter.py:17-36 | for every L > 0 some run of calls that lasts exactly L is granted rate * (ceil(L) + 1) tokens: the bound cannot be lowered for any window |
| RateLimiting.BurstsAreServed | vllm-releases-v0.16.0/benchmarks/disagg_benchmarks/rate_limiter.py:17-36 | a full bucket at every refill, just over a second apart: all of the calls are served |
| RateLimiting.AvailableStaysInRange | vllm-releases-v0.16.0/benchmarks/disagg_benchmarks/rate_limiter.py:24-32 | after any number of rounds the tokens are between 0 and the rate |
| RateLimiting.WaitIsNonNegativeIff | vllm-releases-v0.16.0/benchmarks/disagg_benchmarks/rate_limiter.py:34-36 | a wait is not negative iff at most a second has passed since the last refill, in particular when the rate is positive |
| RateLimiting.LaterRoundIsServedIff | vllm-releases-v0.16.0/benchmarks/disagg_benchmarks/rate_limiter.py:34-36 | at a positive rate and if nobody came in between, a later round is served iff it comes after the end of the wait |
| RateLimiting.ExactWaitIsRefused | vllm-releases-v0.16.0/benchmarks/disagg_benchmarks/rate_limiter.py:24-36 | after exactly the wait, it is refused with a wait of 0 |
| FlatLogprobsContainer.FlatLogprobs.Append | vllm-releases-v0.16.0/vllm/logprobs.py:63-72 | the contents gain the position as it was given, None read as empty; columns stay aligned and tiled |
| FlatLogprobsContainer.FlatLogprobs.AppendFast | vllm-releases-v0.16.0/vllm/logprobs.py:74-93 | the contents gain the dictionary of the zipped rows, cut at the shortest of the four |
| FlatLogprobsContainer.FlatLogprobs.Extend | vllm-releases-v0.16.0/vllm/logprobs.py:95-98 | the contents gain all positions in order |
| FlatLogprobsContainer.FlatLogprobs.ExtendByFlat | vllm-releases-v0.16.0/vllm/logprobs.py:95-98 | extending by a flat container, even by itself, appends its contents as they were |
| FlatLogprobsContainer.FlatLogprobs.GetItem | vllm-releases-v0.16.0/vllm/logprobs.py:110-120 | IndexError iff the index is out of range; otherwise the dictionary at that position, counting from the end for a negative index |
| FlatLogprobsContainer.FlatLogprobs.GetSlice | vllm-releases-v0.16.0/vllm/logprobs.py:121-133 | ValueError iff the step is 0, a result iff the slice is not empty; the result is a new container whose contents are the slice of the contents, tiled again for a step of 1 |
| FlatLogprobsContainer.FlatLogprobs.CutTo | vllm-releases-v0.16.0/vllm/logprobs.py:122-133 | cutting the columns and shifting the ranges keeps the contents |
| FlatLogprobsContainer.FlatLogprobs.CutToPicked | vllm-releases-v0.16.0/vllm/logprobs.py:121-133 | picking ranges with a step is picking positions with that step |
| FlatLogprobsContainer.SliceElement | vllm-releases-v0.16.0/vllm/logprobs.py:121-128 | a slice has an element j iff lo + j * step is in front of hi, and it is that element of the list |
| FlatLogprobsContainer.BoundIs | vllm-releases-v0.16.0/vllm/logprobs.py:121-128 | a position lies in front of a bound of a slice iff its index, counted from the end for a negative bound, is below the bound |
| FlatLogprobsContainer.PickedOrder | vllm-releases-v0.16.0/vllm/logprobs.py:122-128 | picked ranges are in bounds and in order |
| FlatLogprobsContainer.PickedContents | vllm-releases-v0.16.0/vllm/logprobs.py:121-133 | slicing commutes with indexing |
| FlatLogprobsContainer.CutColumns | vllm-releases-v0.16.0/vllm/logprobs.py:124-133 | shifted ranges on cut columns read the same dictionaries |
| FlatLogprobsContainer.SliceStaysTiled | vllm-releases-v0.16.0/vllm/logprobs.py:121-133 | a slice with step 1 of a tiled container is tiled |
| FlatLogprobsContainer.LastDuplicateWins | vllm-releases-v0.16.0/vllm/logprobs.py:113-120 | under a key the value of the last row with that key is found |
| FlatLogprobsContainer.KeysInOrder | vllm-releases-v0.16.0/vllm/logprobs.py:113-120 | the keys of a position stand in the order in which they first appear in its rows |
| FlatLogprobsContainer.DictOfDict | vllm-releases-v0.16.0/vllm/logprobs.py:67-71 | rows that form a dictionary are read back unchanged, order included |
| FlatLogprobsContainer.AppendLogprobsForNextPosition | vllm-releases-v0.16.0/vllm/logprobs.py:175-206 | either container gains one position, the dictionary of as many rows as the shortest of token ids, log probabilities, tokens and 1 + num_logprobs ranks (1 + the number given for -1); row 0 has the rank of the sampled token, row j rank j |
| FlatLogprobsContainer.CreatePromptLogprobs | vllm-releases-v0.16.0/vllm/logprobs.py:162-167 | either container starts with one position that reads as empty |
| ChunkSizing.GetMemcreateChunkSize | vllm-releases-v0.16.0/csrc/cumem_allocator.cpp:24-42 | the setting in bytes if it is positive and fits 64 bits, the default otherwise; never 0 |
| ChunkSizing.AlignUpIff | vllm-releases-v0.16.0/csrc/cumem_allocator.cpp:317 | rounding up gives the least multiple that is not smaller iff the addition does not wrap |
| ChunkSizing.AlignedChunkIsPositiveIff | vllm-releases-v0.16.0/csrc/cumem_allocator.cpp:342-346 | the aligned chunk size is positive, and the next division defined, iff the rounding does not wrap |
| ChunkSizing.FillChunkSizes | vllm-releases-v0.16.0/csrc/cumem_allocator.cpp:345-367 | the array holds the size of every chunk |
| ChunkSizing.ChunkSizeIs | vllm-releases-v0.16.0/csrc/cumem_allocator.cpp:352-367 | every chunk but the last is full, and the last holds the rest |
| ChunkSizing.ChunksAreMultiples | vllm-releases-v0.16.0/csrc/cumem_allocator.cpp:342-367 | every chunk is a positive multiple of the granularity |
| ChunkSizing.ChunksCoverIff | vllm-releases-v0.16.0/csrc/cumem_allocator.cpp:345-367 | the chunks add up to the aligned size iff the rounding of their number does not wrap |
| ChunkSizing.LargestSettingWraps | vllm-releases-v0.16.0/csrc/cumem_allocator.cpp:38-41 | with a granularity of 2 MB the largest accepted setting is aligned to 0 |
| ChunkSizing.LargeChunkCoversNothing | vllm-releases-v0.16.0/csrc/cumem_allocator.cpp:342-367 | with a granularity of 2 MB and the setting 2^44 - 2 an allocation of 4 MB gets no chunk at all |
| ChunkedMapping.CreateAndMap | vllm-releases-v0.16.0/csrc/cumem_allocator.cpp:95-191 | there is no error iff all 2n + 1 create, map and access calls succeed; then every chunk is created and mapped behind the one before and access is granted to the whole range; otherwise the first call that fails gives the error and its number decides how many chunks had been created and mapped; when a create or map call fails, exactly the chunks and handles whose cleanup call fails as well are left, so nothing is left iff no cleanup call fails; only a failing cuMemSetAccess leaves everything mapped |
| ChunkedMapping.CreateThenMap | vllm-releases-v0.16.0/csrc/cumem_allocator.cpp:148-177 | the two loops: all 2n calls succeed, or the first that fails gives the error and ends them |
| ChunkedMapping.CreateAll | vllm-releases-v0.16.0/csrc/cumem_allocator.cpp:148-157 | all handles iff all create calls succeed; otherwise the first that fails gives the error, and exactly the earlier handles whose release fails are left |
| ChunkedMapping.MapAll | vllm-releases-v0.16.0/csrc/cumem_allocator.cpp:158-177 | all mappings iff all map calls succeed; otherwise the first that fails gives the error, and exactly the mappings and handles whose cleanup call fails are left |
| ChunkedMapping.RollBack | vllm-releases-v0.16.0/csrc/cumem_allocator.cpp:163-174 | every placed chunk is unmapped and every handle released once, and exactly those whose call fails are left |
| ChunkedMapping.UnmapAndRelease | vllm-releases-v0.16.0/csrc/cumem_allocator.cpp:193-237 | every chunk is unmapped and every handle released once, whatever fails: exactly the failed ones are left, and the first failure is the error |
| ChunkedMapping.UnmapFirst | vllm-releases-v0.16.0/csrc/cumem_allocator.cpp:217-224 | unmapping goes on after a failure and leaves exactly the chunks whose call failed |
| ChunkedMapping.ReleaseFirst | vllm-releases-v0.16.0/csrc/cumem_allocator.cpp:226-231 | releasing goes on after a failure and leaves exactly the handles whose call failed |
| ChunkedMapping.MapThenUnmap | vllm-releases-v0.16.0/csrc/cumem_allocator.cpp:95-237 | the mapping is error-free iff all its calls succeed; unmapping then leaves exactly what its failed calls leave; the driver state is restored, and there is no error, iff none of them fails |
| ChunkedMapping.NothingIsLeftIff | vllm-releases-v0.16.0/csrc/cumem_allocator.cpp:148-174 | the state before is restored iff every cleanup call succeeds |
| ChunkedMapping.NothingIsStuckIff | vllm-releases-v0.16.0/csrc/cumem_allocator.cpp:217-224 | no chunk stays mapped iff every unmap succeeds |
| ChunkedMapping.NoErrorIff | vllm-releases-v0.16.0/csrc/cumem_allocator.cpp:217-231 | no error is reported iff every call succeeds |
| ChunkedMapping.FirstErrorIs | vllm-releases-v0.16.0/csrc/cumem_allocator.cpp:217-235 | the error reported is the answer of the first call that fails |
| ChunkedMapping.StuckChunksAre | vllm-releases-v0.16.0/csrc/cumem_allocator.cpp:217-224 | a chunk stays mapped, as it was, iff its own unmap fails |
| ChunkedMapping.StuckHandlesAre | vllm-releases-v0.16.0/csrc/cumem_allocator.cpp:226-231 | a handle stays live iff its own release fails |
| ChunkedMapping.ChunksTile | vllm-releases-v0.16.0/csrc/cumem_allocator.cpp:158-177 | the mapped ranges do not overlap, neighbours touch, and together they span the reservation |
| ChunkedMapping.ChunksAre | vllm-releases-v0.16.0/csrc/cumem_allocator.cpp:158-161 | chunk j is mapped at its offset with its size and its own handle, and there are as many mappings as chunks |
| ChunkedMapping.ReservationIsFilled | vllm-releases-v0.16.0/csrc/cumem_allocator.cpp:317-367 | the chunks of an allocation have room iff its whole reserved range is unmapped |
| ChunkedMapping.NextChunkIsFree | vllm-releases-v0.16.0/csrc/cumem_allocator.cpp:159-161 | the range of the next chunk is free of all earlier mappings |
| ScalarTypes.MaxIsLargestFiniteIff | vllm-releases-v0.16.0/vllm/scalar_type.py:71-108 | whenever a pattern results, and whichever codes stand for infinities, the double it encodes is a value of the type and the largest one, iff the type does not combine one exponent bit with IEEE NaNs and the largest code is not itself an infinity |
| ScalarTypes.PatternResultsIff | vllm-releases-v0.16.0/vllm/scalar_type.py:71-108 | a pattern results iff mantissa and exponent fit a double, with room for the re-bias where all exponents are used, and the pattern is not negative; packing it fails iff there are no mantissa bits under EXTD_RANGE_MAX_MIN |
| ScalarTypes.MaxBitsDecode | vllm-releases-v0.16.0/vllm/scalar_type.py:77-104 | the shifted and or-ed pattern decodes to the largest mantissa, widened, and the largest exponent, re-biased |
| ScalarTypes.WideningKeepsValue | vllm-releases-v0.16.0/vllm/scalar_type.py:93-104 | widening the mantissa and re-biasing the exponent keeps the value of a normal code, for any two formats |
| ScalarTypes.ValueIsMonotone | vllm-releases-v0.16.0/vllm/scalar_type.py:77-88 | the value grows with the exponent field, then with the mantissa field, subnormals included, and strictly |
| ScalarTypes.OneBitMaxValue | vllm-releases-v0.16.0/vllm/scalar_type.py:71-104 | for one exponent bit and IEEE NaNs the pattern encodes 2 - 2^-m |
| ScalarTypes.SubnormalsStayBelow | vllm-releases-v0.16.0/vllm/scalar_type.py:71-104 | and every finite value of such a type is smaller |
| ScalarTypes.MinIsNegatedMax | vllm-releases-v0.16.0/vllm/scalar_type.py:116-125 | the minimum is the negated maximum, and the least finite value iff that is the largest, for infinities of both signs |
| ScalarTypes.MinResultsIff | vllm-releases-v0.16.0/vllm/scalar_type.py:116-125 | a pattern of the minimum results iff the type is signed and the maximum has one |
| ScalarTypes.IntegerRangeIsExact | vllm-releases-v0.16.0/vllm/scalar_type.py:110-134 | for an integer type exactly the integers from min() to max() have a bit pattern |
| ScalarTypes.LimitResultsIff | vllm-releases-v0.16.0/vllm/scalar_type.py:110-134 | a limit of an integer type results iff it fits a signed 64-bit integer |
| ScalarTypeIds.Registry.Id | vllm-releases-v0.16.0/vllm/scalar_type.py:136-164 | the or-ed fields are the packing of the type, the registry maps it to the type, and every key still is the packing of its value |
| ScalarTypeIds.Registry.PackFields | vllm-releases-v0.16.0/vllm/scalar_type.py:143-160 | the six rounds of the reduction compute the packing |
| ScalarTypeIds.Registry.OrAndAdvance | vllm-releases-v0.16.0/vllm/scalar_type.py:146-151 | or-ing a masked member in at the offset adds it at its place and stays below the next field |
| ScalarTypeIds.Registry.FromId | vllm-releases-v0.16.0/vllm/scalar_type.py:308-312 | a type is returned iff the id is registered, and its packing is the id; ValueError otherwise |
| ScalarTypeIds.PackFits58Bits | vllm-releases-v0.16.0/vllm/scalar_type.py:153-160 | an id has at most 58 bits |
| ScalarTypeIds.FieldsOfPack | vllm-releases-v0.16.0/vllm/scalar_type.py:153-158 | all six fields can be read back from an id, the flags as 0 or 1 and the NaN representation as 0, 1 or 2 |
| ScalarTypeIds.SameIdIff | vllm-releases-v0.16.0/vllm/scalar_type.py:136-164 | two types share an id iff their widths agree modulo 2^8, their biases modulo 2^32, and their other fields are equal |
| ScalarTypeIds.PackIsInjective | vllm-releases-v0.16.0/vllm/scalar_type.py:136-164 | types whose widths are below 256 and whose biases lie in one window of 2^32 values have different ids |
| ScalarTypeIds.BiasWrapsAround | vllm-releases-v0.16.0/vllm/scalar_type.py:156 | biases 2^32 apart collide |
| ScalarTypeIds.KeysArePackings | vllm-releases-v0.16.0/vllm/scalar_type.py:162-164 | after any constructions every key of the registry is the packing of its value |
| ScalarTypeIds.RoundTripIff | vllm-releases-v0.16.0/vllm/scalar_type.py:308-312 | after any constructions from_id(t.id) == t for every type iff no two of them agree in all fields, widths taken modulo 2^8 and biases modulo 2^32 |
| ScalarTypeIds.RoundTrip | vllm-releases-v0.16.0/vllm/scalar_type.py:308-312 | in particular when all fields fit |
| ForwardChunks.ComputeChunkedLocalNumTokens | vllm-releases-v0.16.0/vllm/forward_context.py:84-99 | one size for each of sp shards a rank: that of shard j is the chunk of ceil(tokens / sp) for rank j / sp |
| ForwardChunks.SpNumTokensAt | vllm-releases-v0.16.0/vllm/forward_context.py:74-82 | shard j holds the tokens of rank j / sp, divided by sp and rounded up |
| ForwardChunks.RepeatAt | vllm-releases-v0.16.0/vllm/forward_context.py:81 | position j of the repeated list is item j / times |
| ForwardChunks.ChunkIs | vllm-releases-v0.16.0/vllm/forward_context.py:95-98 | a chunk is full while tokens are left for it, then holds the rest, and is 1 when nothing is left |
| ForwardChunks.ChunkInRange | vllm-releases-v0.16.0/vllm/forward_context.py:95-98 | every chunk holds between 1 and max tokens |
| ForwardChunks.ChunksConserveTokens | vllm-releases-v0.16.0/vllm/forward_context.py:95-98 | any number of chunks from ceil(t/m) on holds the t tokens of the shard and one dummy token for each chunk too many |
| ForwardChunks.ShardsHoldTheTokens | vllm-releases-v0.16.0/vllm/forward_context.py:76-81 | the sp shards of rank i in the result are equal, hold its tokens, and fewer than sp more |
| ForwardChunks.CumulativeAtLastShard | vllm-releases-v0.16.0/vllm/forward_context.py:191-196 | every entry is the sum of the shards up to it; at the last shard of a rank it is sp times the rounded counts so far, and the two rounding formulas agree |
| ForwardChunks.RepeatPrefix | vllm-releases-v0.16.0/vllm/forward_context.py:195-196 | the first k * sp entries repeat the first k counts |
| ForwardChunks.TotalOfRepeat | vllm-releases-v0.16.0/vllm/forward_context.py:195-196 | repeating every count sp times multiplies the sum by sp |
| OutputMerging.AddAssociates | vllm-releases-v0.16.0/vllm/outputs.py:148-176 | in particular, with unique indices in the middle operand and log probabilities for all or none, no assertion fails and the grouping of merges does not matter |
| OutputMerging.GroupingsAgreeIff | vllm-releases-v0.16.0/vllm/outputs.py:154-176 | for operands with unique indices: a + (b + c) merges iff (a + b) + c does and no index has a list in a, none in b and values in c; the two are equal when a + (b + c) merges, and whenever no index is like that |
| OutputMerging.GroupingsAlong | vllm-releases-v0.16.0/vllm/outputs.py:154-176 | the same with repeated indices in c, the condition taken along its pieces |
| OutputMerging.CombineAssociatesIff | vllm-releases-v0.16.0/vllm/outputs.py:157-170 | three pieces of one index combine the same either way iff the middle one does not hide the log probabilities of the last |
| OutputFolding.FoldCollectsByIndex | vllm-releases-v0.16.0/vllm/outputs.py:148-176 | folding any stream, however indices interleave, leaves exactly one completion for each index that occurs in it, with the text, tokens and log probabilities of its pieces in arrival order |
| OutputStreams.FoldTakesLastScalars | vllm-releases-v0.16.0/vllm/outputs.py:166-170 | after a stream the finish reason, stop reason and cumulative log probability of an index are those of the last piece in the stream that has it |
| OutputStreams.FoldFlags | vllm-releases-v0.16.0/vllm/outputs.py:151-152 | finished iff the start or some output of the stream is; the transfer parameters are those of the last output |
| OutputStreams.FoldKeepsOthers | vllm-releases-v0.16.0/vllm/outputs.py:154-176 | a completion whose index does not come in the stream stays in its place as it is |
| OutputStreams.FoldHoldsPieces | vllm-releases-v0.16.0/vllm/outputs.py:157-165 | each completion holds the text, tokens and log probabilities of what was there and then of the pieces with its index |
| OutputStreams.PayloadInOrder | vllm-releases-v0.16.0/vllm/outputs.py:157-165 | each piece stands behind the earlier ones and in front of the later ones, in text, tokens and log probabilities |
| OutputStreams.MergeListsInOrder | vllm-releases-v0.16.0/vllm/outputs.py:155-176 | completions stand in the order in which their indices first appear, with and without aggregation |
| OutputStreams.ReplacedByLast | vllm-releases-v0.16.0/vllm/outputs.py:171-173 | without aggregation the completion of an index is the last one that came with it |
| OutputStreams.MergesCleanlyIff | vllm-releases-v0.16.0/vllm/outputs.py:163-165 | the assertion fails iff log probabilities come for an index whose first piece has no list |
| OutputFolding.MergeAllPayload | vllm-releases-v0.16.0/vllm/outputs.py:154-176 | one merge appends, for every index, the payload of the other output |
| OutputFolding.MergeOnePayload | vllm-releases-v0.16.0/vllm/outputs.py:155-176 | one piece is appended to its own index and no other |
| OutputMerging.MergesCommute | vllm-releases-v0.16.0/vllm/outputs.py:155-170 | merges of different indices commute once the second is there |
| OutputMerging.MergeOneBehind | vllm-releases-v0.16.0/vllm/outputs.py:155-176 | merging a piece into the right operand first fails or merges exactly as merging it afterwards does, except where the right operand hides its log probabilities |
| OutputMerging.UniformMergesCleanly | vllm-releases-v0.16.0/vllm/outputs.py:163-165 | the assertion cannot fail when log probabilities are present for all or none |
| OutputMerging.MixedLogprobsDoNotAssociate | vllm-releases-v0.16.0/vllm/outputs.py:163-165 | an instance: three outputs for which one grouping merges and the other hits the assertion |
| RequestOutputs.RequestOutput.Add | vllm-releases-v0.16.0/vllm/outputs.py:148-176 | on objects: fails iff the assertion does; otherwise the new contents are the merge of the old contents, the objects held are those of TakenAll, and with aggregation completions of the other output that are not held are as they were |
| RequestOutputs.HeldIffNew | vllm-releases-v0.16.0/vllm/outputs.py:155-176 | with aggregation an object of the other output is held afterwards iff its index is neither held before nor earlier in that output |
| RequestOutputs.HeldIffLast | vllm-releases-v0.16.0/vllm/outputs.py:171-176 | without aggregation it is held iff no later completion of that output has its index |
| RequestOutputs.RequestOutput.AddAll | vllm-releases-v0.16.0/vllm/outputs.py:154-176 | the outer loop merges all completions, also when the other output repeats an index |
| RequestOutputs.RequestOutput.AddCompletion | vllm-releases-v0.16.0/vllm/outputs.py:155-176 | one completion: merged in place, replaced by the other object, or appended; not ok iff the assertion fails |
| RequestOutputs.RequestOutput.Search | vllm-releases-v0.16.0/vllm/outputs.py:155-156 | the inner loop finds the first completion with the index |
| RequestOutputs.CompletionOutput.Absorb | vllm-releases-v0.16.0/vllm/outputs.py:157-170 | the aggregating branch updates the completion to the combination, or fails on the assertion |
| RequestOutputs.CleanPrefix | vllm-releases-v0.16.0/vllm/outputs.py:154-165 | a merge that never hits the assertion has no prefix that does |
| RequestOutputs.AddFirst | vllm-releases-v0.16.0/vllm/outputs.py:155-176 | adding b to a leaves the completions of b as they were, whether or not a now holds them |
| RequestOutputs.AddLater | vllm-releases-v0.16.0/vllm/outputs.py:155-176 | for any a, b and c: adding c to a changes no completion of b that a does not hold or whose index c does not bring; one that a holds is combined with the piece of c |
| RequestOutputs.LaterAddsReachNewIndices | vllm-releases-v0.16.0/vllm/outputs.py:155-176 | for any three outputs with unique indices: after b and then c have been added to a, the completions of b that a holds are those whose index was new to a, and exactly those of them whose index comes with c are combined with its piece |
| RequestOutputs.LaterAddsReachTheOtherOutput | vllm-releases-v0.16.0/vllm/outputs.py:155-176 | an instance: adding b to an empty a and then c to a changes the completion that b holds |
| OutputCollector.Put | vllm-releases-v0.16.0/vllm/v1/engine/output_processor.py:62-72 | one more output of a stream is merged into the pending one; outputs still to come share nothing with it and are as they were |
| OutputCollector.PutAll | vllm-releases-v0.16.0/vllm/v1/engine/output_processor.py:62-72 | any stream of outputs that share no completion, with log probabilities for all or none, ends up folded in the first, object by object |

## Left out

- Floating point: times, probabilities, scores, log probabilities and logits are reals, so rounding, the 0.000002 and
  half-second tolerances of the report, and casts between dtypes are not captured. NaN and the infinities appear only
  in `BadWords`.
- Build report: everything printed, the grouping by file extension, and the divisions by the length at lines 284-292,
  which fail for a build of length 0. Step types and command-line arguments.
- NinjaLog.ReadTargets: a line is given as corrupt, a bad number or a record; splitting and int() are not modelled. The
  dictionary is an insertion-ordered list of keys and values.
- BuildEvents.SortEventsSorts: the sort is a stable insertion sort, not the one of list.sort; entries with equal time
  and action keep the order in which they were listed.
- Partition signatures: the order of the ordered sets, symbol inputs, `memory_plan_reuse_patched`,
  `should_partition_patched` and the installation of the patches. The compiler's guarantees on a graph are the
  conjuncts of `PartitionLiveness.Compiled`.
- PartitionSignature.GetSignatures: real names that come back to themselves, on which `is_none_layout` of the source
  recurses without end.
- Block selection: the attention scores and their softmax (block scores are given and non-negative), the broadcast of
  the mask from rank 0, batch sizes other than 1, and the call to the undefined ComputeKeyScoreLastBlockWise in
  `UpdateKVCache` (line 115), which is replaced by the mask of the selection.
- TokenSelection.SelectTokens: values of last_n below 1 or above the sequence length, which fail in the causal mask.
- TensorParallel.TensorParallelNucleusIsPrefix: both runs use one order, since torch.sort may break ties either way.
- BadWords.NoBadWordsLogitsProcessor.Call: later calls come with logits of the first call's size. Building the list of
  bad words with a tokenizer is not modelled.
- Rate limiter: the event loop, the sleeping itself, and rates that are not integers.
- FlatLogprobs: slices with a negative step, item assignment and deletion (which always raise), and
  `create_sample_logprobs`.
- ChunkedMapping.CreateAndMap: runs entered with an error code already set, the CUDA branch, and the device context.
- Allocator: address reservation, the Python callbacks, failures of malloc, and loop counters that overflow an int.
- Scalar types: the bias that min() and max() subtract is modelled for integer types only, since floating-point
  constructors set it to 0. Which code of a type without IEEE NaNs is its infinity is not fixed by the source; the
  theorems hold for every choice. The names and the NaN and infinity queries of a type are not modelled.
- Forward context: the context managers around the chunk sizes, timing and logging.
- RequestOutputs.RequestOutput.Add: the lists of token ids and log probabilities are values, so sharing of these lists
  between completions is not captured; sharing of the completions is. What a failed assertion leaves behind, an output
  merged with itself, and the fields that `add` does not touch are left out.
- Output collector: taking the pending output out, collectors that do not aggregate, pooling outputs, exceptions, and
  the event that wakes the reader.
- Wrappers around foreign kernels, benchmark drivers, servers and set-up scripts.
