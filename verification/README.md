# Container image mirror: a verified model

The program copies container images from source registries to mirror registries. It resolves tags,
keeps some of them by a policy, turns each into one copy job per mirror, reorders the jobs so that
tags of one image are not copied side by side, and deletes from the mirrors what is no longer wanted.
A memory limiter decides when a copy may start.

This project models that core and proves what it promises.

| file | models |
|---|---|
| `Jobs.dfy`, `StripTags.dfy`, `Channels.dfy` | jobs, unsigned 64-bit arithmetic, tag references, Go channels |
| `Interleaver.dfy` | the interleave buffer as a value: Tick, sequences of Ticks, flushing, conservation |
| `Windows.dfy` | the same buffer read as a sliding window over its output, and when the readings agree |
| `RoundRobin.dfy` | the stage as a round robin over images, and the order of arrival |
| `Orders.dfy` | the exact conditions for order, round robin, forwarding and a safe decrement |
| `Spacing.dfy` | the exact conditions for a spaced output, flushes included |
| `Costs.dfy` | rotations of the queue, nested flushes, how much is held back |
| `InterleaveBuffers.dfy` | the class with its channel and loops, and the stage that drives it |
| `Pipeline.dfy` | splitter, interleaver and housekeeping as a step system over bounded channels |
| `Merge.dfy` | the merge functions as a step system |
| `TagPolicy.dfy`, `TagPolicyLaws.dfy` | the tag policy of the filter stage and its closed form |
| `Stages.dfy` | filter, transform and housekeeping on complete inputs, and the link from filter to deletion |
| `Memlim.dfy`, `MemlimRuns.dfy` | the memory limiter, its ticks and its runs |

Conventions. A `uint` is 64 bits wide and wraps (`Jobs.Wrap`). Classes hold the fields of the source's
structs and package variables; each method is proved against a function on values, and the theorems are
about these functions. Concurrent code is a set of atomic steps, and a schedule is any sequence of enabled
steps. A Go panic and a send that never returns are results of their own.

What the model brings out:

- **Nothing is ever removed from `filter`**, whatever the comment at `pkg/cim/interleave_buffer.go:56` says. So
  the replacement branch (lines 69-72) is never taken on a buffer made by `NewInterleaveBuffer`, and a held job
  leaves only by a flush. The branch is in the model; `Interleaver.RefusedJobIsQueued` shows it is not reached.
- **Spacing holds within one generation**, that is, up to the next flush, and until `epoch + cap` wraps:
  `Windows.SpacingHoldsUntilWrap`. For the whole output, which is what the copy workers see, no interval of at least 2
  promises anything beyond single jobs (`Spacing.RunsAreSpacedExactlyWhen`). A spaced input is forwarded as it is, and
  only a spaced input needs no flush (`Spacing.SpacedInputIsForwarded`); a flushed output can still be spaced by luck
  (`Spacing.FlushedOutputMayBeSpaced`), but with a larger interval than images it is spaced exactly when every image
  has a single job (`Spacing.OutputIsSpacedExactlyWhen`).
- **Order of arrival per image is kept for all inputs of up to k images exactly when k is at most 1, or is less than
  the interval and k + interval is at most 2^64**, and exactly then the output is a round robin:
  `Orders.OrderIsKeptExactlyWhen`. Three families of inputs break it otherwise: as many images as the interval, an
  expiry that wraps, and, for intervals of 0 and 1, an epoch that wraps. The list in
  `pkg/cim/interleave_buffer_test.go:44-59` is in round-robin order, but the comparison there ignores order, and four
  images with an interval of four are outside the bound.
- **The pipeline hangs exactly when the first generation holds back more jobs than the channel takes**:
  `Pipeline.DeadlockExactlyWhenTooManyHeld`. With a larger interval than images that means more than 1024 jobs besides
  the first of each image (`Pipeline.DeadlockExactlyWhenTooManyRepeats`); for every interval of at least 2, up to 1024
  such jobs always fit and no larger number always does (`Pipeline.FitsAllExactlyWhen`). More than 1025 jobs of a
  single image and nothing else are enough, since nothing enforces `ConfigGlobalTagLimit`.
- **A hanging pipeline still deletes tags** when at most 1024 jobs are left behind those the interleaver took, though
  the jobs it holds and these are never copied; no job's destination is among the deleted
  (`Pipeline.DeletionsOfAStoppedPipeline`, `Pipeline.NoJobIsEverDeleted`).
- **The top-up loop of the tag policy indexes past the list** when one tag string comes with a young and an old
  timestamp and the minimum cannot be met otherwise: `TagPolicyLaws.ClosedFormExactlyWhen`.
- **The memory limit bounds the admitted requests only with hints, and only while at most one byte of hints is
  stray**, that is, belongs to no admitted request, like the hint `copyImage` gives after its wait ended with its
  context: `MemlimRuns.LimitHoldsExactlyWhen`. Otherwise it is a bound only when the memory readings let nothing but
  empty requests be admitted. Stray hints move the bound by what they add up to: `MemlimRuns.AdmissionIsSafe`.

## Model

| member | source | states |
|---|---|---|
| StripTags.StripTag | pkg/cim/interleave_buffer.go:114-124 | the split-and-rejoin loop returns everything before the last colon, or the whole string |
| StripTags.CutAtLastColon | pkg/cim/interleave_buffer.go:114-124 | the cut is at the last colon of the string, and only a string with a colon is cut |
| StripTags.StripUndoesTagging | pkg/cim/interleave_buffer.go:113-124 | stripping image + ":" + tag gives the image back for every colon-free tag, registry ports included |
| StripTags.JoinUndoesSplit | pkg/cim/interleave_buffer.go:115-122 | splitting at colons and joining again is the identity, and the parts are colon-free |
| Interleaver.RefusedJobIsQueued | pkg/cim/interleave_buffer.go:63-87 | if every queued image is a key of the filter, a refused job costs exactly one turn of the queue, ends up at its end, nothing is returned and the epoch stands |
| Interleaver.FirstUnknownIsReplacement | pkg/cim/interleave_buffer.go:66-72 | in any state, reachable or not, a refused job lets out the first queued job whose image is no key, remembered and counted, and leaves the queue turned past it |
| Interleaver.ReachableBuffer | pkg/cim/interleave_buffer.go:38-88 | after any Ticks on a new buffer: epoch is the number of jobs emitted, the keys are the images emitted, every queued image is a key, and the rotations are a triangular number |
| Interleaver.DecrementMeetsPositiveEpoch | pkg/cim/interleave_buffer.go:85-87 | for fewer than 2^64 jobs, the decrement is reached only with an epoch of at least 1 that counts the emitted jobs exactly |
| Orders.DecrementIsSafeExactlyWhen | pkg/cim/interleave_buffer.go:85-87 | for every interval, the decrement meets a positive epoch after all inputs of at most n jobs if and only if n is less than 2^64 |
| Interleaver.GenerationSplitsInput | pkg/cim/interleave_buffer.go:38-88 | emitted and held jobs are two complementary subsequences of the input, each in order of arrival |
| Interleaver.GenerationConserves | pkg/cim/interleave_buffer.go:38-88 | emitted plus held jobs are the input as a multiset |
| Interleaver.ShortArmsAgreeWithRecursion | pkg/cim/interleave_buffer.go:102-110 | the arms for no and for one leftover job send what flushing again would send |
| Interleaver.RunConserves | pkg/cim/interleave_buffer.go:92-111 | the whole stage, all nested flushes included, outputs exactly the multiset of its input |
| Interleaver.HeldGrows | pkg/cim/interleave_buffer.go:63-64 | what a prefix of the input holds back and emits is a prefix of what the whole input does |
| Interleaver.FirstJobComesOutFirst | pkg/cim/interleave_buffer.go:49-53 | the first job of a generation is the first to leave it |
| Windows.FilterHoldsExpiry | pkg/cim/interleave_buffer.go:49-61 | a filter entry is the position of the image's last emission plus the interval, modulo 2^64 |
| Windows.MapIsWindow | pkg/cim/interleave_buffer.go:46-61 | while no addition wraps, a job passes exactly when its image is not among the last interval - 1 jobs emitted |
| Windows.RunIsSweep | pkg/cim/interleave_buffer.go:38-111 | for at most 2^64 jobs, and jobs plus interval at most 2^64 + 1, the stage with map, epoch, queue and flushes computes the same output as repeated passes of the sliding window |
| Windows.SplitIsSpaced | pkg/cim/interleave_buffer.go:7-11 | in a pass of the window, jobs of one image are at least the interval apart |
| Spacing.DestinationKeysBuffer | pkg/cim/interleave_buffer.go:46 | with an interval of at least 2, the second of two jobs is held back if and only if their destination references are the same up to the tag, whatever the sources |
| Windows.WrappedExpiryBreaksSpacing | pkg/cim/interleave_buffer.go:40-43 | an input one past the bound on which two jobs of one image leave next to each other |
| Windows.SpacingHoldsUntilWrap | pkg/cim/interleave_buffer.go:38-61 | all inputs of up to n jobs are spaced by an interval of at least 2 if and only if n + interval is at most 2^64 + 1 |
| RoundRobin.GenerationIsRound | pkg/cim/interleave_buffer.go:46-64 | with a larger interval than images, a pass emits the first job of every image and holds back the others in order |
| RoundRobin.SweepIsInRounds | pkg/cim/interleave_buffer.go:92-111 | then all passes together give the first jobs of the images, then the second jobs, and so on |
| RoundRobin.BufferGenerationIsRound | pkg/cim/interleave_buffer.go:46-64 | with a larger interval than images, and images plus interval at most 2^64, one generation of the buffer itself, map, epoch and wrap included, is such a pass, for inputs of any length |
| RoundRobin.RunIsRoundRobin | pkg/cim/interleave_buffer.go:38-111 | for inputs of any length the buffer's whole run is that round robin and keeps every image's jobs in order (intervals beyond 2^63 must leave room for the images below 2^64) |
| Orders.LateJobOvertakes | pkg/cim/interleave_buffer.go:63-111 | a job refused on the way leaves behind a later job of its image that is let through, and nothing else changes |
| Orders.OvertakenInACrowd | pkg/cim/interleave_buffer.go:92-111 | order is lost by some input for every interval of at least 2 and as many images |
| Orders.OvertakenAfterWrap | pkg/cim/interleave_buffer.go:49-61 | and for every larger interval that the number of images takes beyond 2^64 |
| Orders.OvertakenByNarrowInterval | pkg/cim/interleave_buffer.go:40-61 | and for an interval of 0 or 1 and two images, once the epoch has wrapped |
| Orders.OneImageKeepsItsOrder | pkg/cim/interleave_buffer.go:38-111 | jobs of a single image leave in their order of arrival, for every interval and length |
| Orders.OrderIsKeptExactlyWhen | pkg/cim/interleave_buffer.go:38-111 | for every interval of 64 bits, the whole run keeps the order of arrival per image for all inputs with at most k images if and only if k is at most 1, or is less than the interval with k + interval at most 2^64; and is the round robin for all of them if and only if the same holds |
| RoundRobin.InRoundsKeepsOrder | pkg/cim/interleave_buffer.go:25-28 | the round robin of any input keeps the jobs of each image in their order of arrival |
| Orders.ForwardsExactlyWhen | pkg/cim/interleave_buffer.go:46-61 | all inputs of at most n jobs leave as they came if and only if n is at most 2, or the interval is 0 or 1 and n at most 2^64 + 1 |
| Spacing.SpacedInputIsForwarded | pkg/cim/interleave_buffer.go:7-11 | while no addition can wrap, nothing is held back if and only if the input is spaced, which is then forwarded; and the whole output is spaced if and only if a second stage would hold nothing of it back |
| Spacing.RunsAreSpacedExactlyWhen | pkg/cim/interleave_buffer.go:7-11 | for every interval of 64 bits, the whole output of all inputs of at most n jobs is spaced if and only if the interval or n is at most 1 |
| Spacing.FlushedOutputMayBeSpaced | pkg/cim/interleave_buffer.go:92-111 | a family of inputs with a job held back and flushed whose whole output is spaced all the same |
| Spacing.OutputIsSpacedExactlyWhen | pkg/cim/interleave_buffer.go:7-11 | with a larger interval than images, and images plus interval at most 2^64, the whole output keeps the interval if and only if every image has a single job |
| Costs.RunCost | pkg/cim/interleave_buffer.go:66-111 | over a whole run on n jobs the rotation loop makes at most (n+1)n(n-1)/6 iterations, with equality exactly when n is at most 1 or all jobs share one image and the interval exceeds 1 |
| Costs.EveryImageEmits | pkg/cim/interleave_buffer.go:49-53 | the images a generation emits are the images it was given |
| Costs.FlushDepthBound | pkg/cim/interleave_buffer.go:92-111 | FlushBuffer nests at most m calls when no image has more than m buffered jobs, m at least 1 |
| Costs.FlushDepthIsReached | pkg/cim/interleave_buffer.go:92-111 | two images with m jobs each and a larger interval than images, images plus interval at most 2^64, need at least m calls |
| Costs.FlushDepthExactlyWhen | pkg/cim/interleave_buffer.go:92-111 | with a larger interval than images, and images plus interval at most 2^64, d calls are enough if and only if at most one buffered job has d earlier jobs of its image |
| Costs.HeldBound | pkg/cim/interleave_buffer.go:63-64 | a generation holds back at most the input less one job for every image |
| Costs.HeldExact | pkg/cim/interleave_buffer.go:63-64 | with a larger interval than images, and images plus interval at most 2^64, it holds back exactly that many |
| Channels.Chan.Send | pkg/cim/interleave_buffer.go:64 | a send panics on a closed channel, blocks on a full one, and otherwise appends |
| Channels.Chan.Receive | pkg/cim/interleave_buffer.go:68 | a receive takes the oldest element, reports a drained closed channel, or blocks |
| Channels.Chan.Close | pkg/cim/interleave_buffer.go:95 | a second close panics; the content stays |
| InterleaveBuffers.InterleaveBuffer.constructor | pkg/cim/interleave_buffer.go:12-23 | a new buffer has an empty open channel of the configured size, no keys and epoch 0 |
| InterleaveBuffers.InterleaveBuffer.Tick | pkg/cim/interleave_buffer.go:38-88 | in every state Tick does one step of the value model, or blocks on a full channel changing nothing, or panics on a closed one |
| InterleaveBuffers.InterleaveBuffer.QueueAndReplace | pkg/cim/interleave_buffer.go:63-87 | the half of Tick for a refused job: queue it, then look for a replacement |
| InterleaveBuffers.InterleaveBuffer.Cycle | pkg/cim/interleave_buffer.go:67-83 | the loop takes out the first queued job whose image is no key and leaves the queue rotated up to it, or leaves the queue as it was after one full turn |
| InterleaveBuffers.InterleaveBuffer.Drain | pkg/cim/interleave_buffer.go:94-100 | the drain loop runs the whole queue through a new buffer and sends what it emits |
| InterleaveBuffers.InterleaveBuffer.FlushBuffer | pkg/cim/interleave_buffer.go:92-111 | flushing an open buffer never blocks, sends the flush of its content, and drains and closes its channel and every channel made on the way once; their number and the rotations are those of the value model |
| InterleaveBuffers.InterleaveBuffer.FlushLeftover | pkg/cim/interleave_buffer.go:102-110 | the switch closes the flush buffer once and sends what is left in it |
| InterleaveBuffers.TickAll | pkg/cim/run.go:274-280 | the loop of the stage finishes if and only if the first generation fits the channel, and otherwise stops at a job that is refused by a full buffer |
| InterleaveBuffers.Interleave | pkg/cim/run.go:269-285 | the stage finishes if and only if the first generation fits the channel; then it has sent the whole run and closed everything once; otherwise it hangs at the first job that does not fit |
| Pipeline.Reachable | pkg/cim/concurrency.go:9-22 | in every reachable state both channels carry the jobs in order, the interleaver is at a point of its run, and the deletion set is the resolved tags less what has been subtracted |
| Pipeline.NoJobIsEverDeleted | pkg/cim/run.go:322-341 | in every state of every schedule a deleted tag was resolved, is no job's destination and is deleted once; copies are a prefix of the run; none of the four channels is sent to or closed after its close |
| Pipeline.FinalOutcome | pkg/cim/run.go:247-285 | at the end the copied jobs are the interleaved run, as a multiset the jobs housekeeping subtracted, and the deleted tags are exactly the resolved tags less the destinations |
| Pipeline.DeadlockExactlyWhenTooManyHeld | pkg/cim/concurrency.go:9-22 | a schedule that cannot go on has finished everything if and only if the first generation fits the interleave buffer |
| Pipeline.DeadlockExactlyWhenTooManyRepeats | pkg/cim/interleave_buffer.go:13 | with a larger interval than images, and images plus interval at most 2^64, it has finished if and only if the jobs less the images are at most the channel's size |
| Pipeline.FitsAllExactlyWhen | pkg/cim/interleave_buffer.go:13 | for every interval of at least 2, all inputs with at most so many repeats fit if and only if that number is at most the channel's size |
| Pipeline.EveryScheduleEnds | pkg/cim/concurrency.go:9-22 | every schedule has at most 8 steps a job, 2 a resolved tag and 8 more |
| Pipeline.SomethingMoves | pkg/cim/run.go:269-285 | in every reachable state that is not final some step is enabled, unless the interleave buffer is full |
| Pipeline.FewRepeatsFit | pkg/cim/interleave_buffer.go:13 | the buffer takes every input whose jobs less its images are at most its size |
| Pipeline.OneImageFitsExactlyWhen | pkg/cim/interleave_buffer.go:13 | jobs of a single image fit if and only if they are at most 1025 |
| Pipeline.DeletionsOfAStoppedPipeline | pkg/cim/run.go:322-341 | when nothing can go on, hang or not, housekeeping has made all its deletions if at most a channel of jobs is left behind those the interleaver took, and otherwise none |
| Pipeline.CopiesOfAHang | pkg/cim/interleave_buffer.go:64 | a hang is at the first job the full buffer has to refuse, with everything copied that left the buffer before |
| Pipeline.EveryScheduleStops | pkg/cim/run.go:269-285 | every schedule goes on to a state in which nothing can |
| Pipeline.SomeScheduleFinishesExactlyWhen | pkg/cim/interleave_buffer.go:13 | some schedule finishes everything if and only if the first generation fits the buffer |
| Merge.MergeProtocol | pkg/cim/concurrency.go:24-46 | in every state of every schedule nothing panics, the wait group counts the unfinished forwarders, each source's elements leave in order, and after the close every source is drained and nothing moves |
| Merge.ClosedOutputIsShuffle | pkg/cim/concurrency.go:48-70 | a closed output has carried a shuffle of the inputs: every input in its own order, together the multiset of all, no inputs included |
| Merge.SomethingMoves | pkg/cim/concurrency.go:72-94 | until the output is closed some step is enabled |
| Merge.EveryScheduleEnds | pkg/cim/concurrency.go:72-94 | every schedule has at most two steps an element, one a forwarder, and the close |
| TagPolicy.SortByAge | pkg/cim/run.go:188-195 | a permutation of the tags, youngest first when all timestamps are known |
| TagPolicy.KeepYoung | pkg/cim/run.go:203-208 | the first loop panics exactly on a missing timestamp, and otherwise keeps the tags newer than the threshold and lists their strings |
| TagPolicy.TopUp | pkg/cim/run.go:211-219 | the second loop appends the first unlisted tags up to the minimum, and runs off the list exactly when there are too few |
| TagPolicy.FilterImage | pkg/cim/run.go:186-230 | the three loops compute Apply of some sorted permutation of the image's tags, panics included |
| TagPolicyLaws.ClosedFormExactlyWhen | pkg/cim/run.go:200-224 | for sorted dated tags: the index runs out exactly when tags sharing no string with a young tag are too few; the sorted prefix of length min(maxNum, max(young, min(minNum, n))) is kept exactly when it does not and no old tag in it shares its string with a young one |
| TagPolicyLaws.ClosedForm | pkg/cim/run.go:200-224 | when equal strings have equal timestamps the policy keeps exactly that prefix |
| TagPolicyLaws.KeepsExactly | pkg/cim/run.go:200-224 | on the fields of the sorted tags: the policy keeps the first tags, and the i-th among them if and only if i is below the maximum and it is below the minimum or younger than the age |
| TagPolicyLaws.PanicsExactlyWhen | pkg/cim/run.go:198-223 | a round panics if and only if there is no policy, a limit is negative, or a tag has no timestamp, equal references having equal timestamps |
| TagPolicyLaws.RedatedTagPanics | pkg/cim/run.go:212-213 | a family of two-tag inputs, one string with two timestamps, on which the index runs out |
| TagPolicyLaws.TiesDoNotMatter | pkg/cim/run.go:188-195 | two sorts that break ties differently lead to the same timestamps kept |
| TagPolicyLaws.RaisingLimitsKeepsMore | pkg/cim/run.go:200-224 | raising the minimum, the maximum or the age never drops a tag that was kept |
| TagPolicyLaws.DroppedAreNoYounger | pkg/cim/run.go:187-224 | kept and dropped tags make up the input, and no dropped tag is younger than a kept one |
| Stages.Group | pkg/cim/run.go:179-182 | the map holds, for every image seen and no other, its tags in order of arrival |
| Stages.RoundHasTagsOfImage | pkg/cim/run.go:180-181 | a round sorts exactly the tags whose image field is its image, each as often as it came in |
| Stages.Filter | pkg/cim/run.go:178-240 | the stage is one round of the policy for every image, each once, in any order of the map; it panics exactly in a round that does, and has sent exactly what the completed rounds kept |
| Stages.EachImageIsFiltered | pkg/cim/run.go:186-230 | whatever the order of the rounds, the output's tags of an image are exactly what its round kept |
| Stages.RoundClosedForm | pkg/cim/run.go:186-230 | with dated tags, uniform timestamps and limits that are not negative no round panics and each keeps its closed form |
| Stages.Transform | pkg/cim/run.go:247-263 | the nested loops send the rows of jobs of the tags, one after another |
| Stages.EveryTagForEveryMirror | pkg/cim/run.go:251-258 | a job is sent if and only if it is that of a tag and a mirror, and the numbers multiply |
| Stages.JobAt | pkg/cim/run.go:251-258 | the job of the i-th tag and the j-th mirror is sent at position i times the mirrors plus j |
| Stages.JobCopiesTag | pkg/cim/run.go:253-254 | on its fields, that job copies the i-th tag itself, with its size, to the reference joined from the j-th mirror and the tag's reference |
| Stages.TwoMirrorsWaitExactlyWhen | pkg/cim/interleave_buffer.go:46 | the jobs of one tag for two mirrors wait for each other in the buffer if and only if they go to the same repository |
| Stages.Housekeep | pkg/cim/run.go:322-341 | the three loops send exactly the resolved tags that are no job's destination, each once |
| Stages.KeptTagsSurvive | pkg/cim/run.go:93-117 | no schedule ever deletes, from any mirror, a tag that the filter kept |
| Stages.DeletedExactlyWhenUnwanted | pkg/cim/run.go:93-117 | at the end a name has been deleted if and only if it was resolved and no kept tag maps to it in any mirror |
| Stages.DeletedExactlyWhenPolicyDrops | pkg/cim/run.go:93-117 | from the policy to the registry, with dated tags and uniform timestamps: at the end a name has been deleted if and only if it was resolved and is, in no mirror, a tag that is below the maximum in its image's order of age and below the minimum or younger than the age |
| Memlim.MemoryManager.WaitForFreeMemory | pkg/memlim/memlim.go:111-119 | the request joins the end of the queue, or the call panics when nothing manages the memory |
| Memlim.MemoryManager.Stop | pkg/memlim/memlim.go:74-78 | a cancelled timer leaves the limiter as it is, not running |
| Memlim.MemoryManager.FreedMemHint | pkg/memlim/memlim.go:128-134 | the bytes are subtracted modulo 2^64 and the first hint switches hints on and shortens the interval |
| Memlim.MemoryManager.RunMemoryManagement | pkg/memlim/memlim.go:146-200 | a tick takes the decision and reaches the state of the value model, its panic for a limit and a usage of 0 included |
| Memlim.MemoryManager.AdmitFirstFit | pkg/memlim/memlim.go:187-195 | the loop admits the first queued request smaller than the memory available, or changes nothing |
| Memlim.MemoryManager.ShedOne | pkg/memlim/memlim.go:210-217 | shedding cancels the request admitted last that is still active |
| Memlim.TickAdmitsFirstFit | pkg/memlim/memlim.go:184-195 | a tick admits one request exactly when usage is low and one fits: the first that fits, the others keeping their order |
| Memlim.TickAdmitsExactlyWhen | pkg/memlim/memlim.go:149-195 | on the variables: a tick admits a request if and only if the reading is below 80 percent and some queued request stays below the limit on top of the reading and, with hints, of the tracked memory; it is the first such one, and joins the active ones |
| Memlim.LastAdmittedIsShedFirst | pkg/memlim/memlim.go:211-213 | shedding after an admission cancels the request just admitted and leaves the active ones as they were before |
| Memlim.AvailableWrapsExactlyWhen | pkg/memlim/memlim.go:149-154 | at low usage the available memory exceeds the limit if and only if hints are on and the tracked memory exceeds it |
| Memlim.HintKeepsLimitExactlyWhen | pkg/memlim/memlim.go:128-129 | a hint leaves the tracked memory within the limit if and only if it is at most what is tracked, or wraps back below the limit |
| Memlim.HintWithoutAdmissionLiftsLimit | pkg/memlim/memlim.go:128-129 | at every low reading, a hint for more than is tracked makes the excess available on top of the limit |
| MemlimRuns.AdmissionIsSafe | pkg/memlim/memlim.go:146-200 | in every run with hints on, tracked memory is the sum of the outstanding requests less the stray hints modulo 2^64, and the sum stays below the limit plus the stray hints; with none stray it is at most the limit, the available memory does not wrap, and an admission keeps the sum below the limit |
| MemlimRuns.LimitHoldsExactlyWhen | pkg/memlim/memlim.go:146-200 | the outstanding requests meet the limit in all runs with at most so many stray bytes, whose readings report at least a given floor, if and only if the floor is at least 80 percent of the limit, or hints are on and at most one byte is stray, or hints are off and the floor is at least the limit less 1 |
| MemlimRuns.WithoutHintsTheLimitIsExceeded | pkg/memlim/memlim.go:150-153 | with hints off, a run of n ticks admits n equal requests at any low readings that leave room for one, whatever they add up to |
| MemlimRuns.EveryTickAdmits | pkg/memlim/memlim.go:184-195 | with hints the same holds until the sum reaches the limit |
| MemlimRuns.EachRequestOnce | pkg/memlim/memlim.go:187-217 | in every run each request waits or was admitted, once, and each admitted one is active or was shed, once |
| MemlimRuns.OrderInEveryRun | pkg/memlim/memlim.go:115-191 | in every run the queue is the requests not admitted, in order of arrival, and the active ones are the admitted ones not shed, in order of admission |
| MemlimRuns.LatestActiveIsShed | pkg/memlim/memlim.go:210-213 | in every run the request shed next is active, and all requests admitted after it have been shed |
| MemlimRuns.ShedsForExcessesOnly | pkg/memlim/memlim.go:164-173 | in every run, sheddings made and still to come are as many as the readings above 110 percent of the limit |
| MemlimRuns.IntervalFollowsReading | pkg/memlim/memlim.go:164-197 | after every run a tick panics if and only if limit and reading are 0, and sets the interval to 1 second above 110 percent, 2 seconds from 80 percent on, and below to 200 milliseconds with hints, 4 seconds without |
| MemlimRuns.QueueDrains | pkg/memlim/memlim.go:184-195 | with readings bounded below 80 percent of the limit and admitted memory given back between ticks, n requests that fit above the bound are admitted in n ticks, in the order of the queue |

## Left out

- Registry clients, HTTP, JSON, credentials and pre-flight checks: resolved tags are an arbitrary finite list.
- `prepare`, `resolveImages`, `resolveTags`, `resolveTagDetails`, `deleteTag`: network calls; their channels are covered by the merge model.
- `copyImage`: copy workers are receivers that are always ready; their requeueing sends (`pkg/cim/run.go:526-534`) go to a channel that may be closed already and are not modelled.
- Pipeline.Reachable: the sends of a flush are computed when the flush starts and then sent one by one; the flush's own channels are local to it, and `InterleaveBuffers` models them.
- Pipeline.SomethingMoves: the filter and transform goroutines are not steps; transform's output is a finite sequence that is always ready.
- Merge.MergeProtocol: the output's receiver is always ready, and an input's elements are there when its forwarder asks.
- InterleaveBuffers.InterleaveBuffer.Cycle: the loop ends with the job found, and the map is updated by its caller instead of in the loop.
- InterleaveBuffers.InterleaveBuffer.FlushBuffer: the output channel is one whose receiver is always ready and that is open.
- TagPolicy.SortByAge: `sort.Slice` is represented by a method with the contract of a sort that may be unstable; it returns a list where the library sorts in place.
- TagPolicy.FilterImage: a minimum too large to allocate, which panics in `make`, and overflow in clock arithmetic.
- Stages.Filter: the clock is a function of the image whose round it is.
- Stages.Transform: `path.Join` is any function of a mirror and a name; that it cleans paths is not used.
- Memlim.MemoryManager.RunMemoryManagement: the usage ratio is compared exactly, by cross-multiplication, not in floating point.
- Memlim.MemoryManager.WaitForFreeMemory: the wait itself; a caller that gives up when its context ends leaves its request queued, and its hint is a `Hint` event of `MemlimRuns`.
- Restarting the limiter, dynamic limits, timers, garbage collection and unsynchronised access to the limiter's variables: each call is one atomic step.
- Events, status counters and summaries: simple counting; `emit` may drop events.
- The Kubernetes types, the controller and `main.go`: no core logic.
