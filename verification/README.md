# Verified model of the CEF fork's benchmark and library logic

A Dafny model of the parts of this repository that decide something, with proofs
of what they guarantee. `dafny verify dfyconfig.toml` checks all of it.

| file | what it models |
|---|---|
| `CdpTransport.dfy` | the DevTools transport of `bench/real-bench.py`: futures, event queues, background reader, timeouts, as a step relation and as a class that updates its fields |
| `CdpSafety.dfy`, `CdpEvents.dfy` | what every interleaving of sends, frames, timeouts, drains and takes guarantees |
| `SequentialClient.dfy` | the scan-until-the-id-matches transport of `bench/cef-bench-standalone.py`, and the proof that the dispatching transport refines it |
| `TransportAgreement.dfy` | exactly when the two transports answer alike, for calls and frames in any order |
| `Statistics.dfy` | sorting, interpolated percentiles, rounding and `compute_stats` of `bench/run.py` |
| `TaskRunner.dfy` | `run_task` of `bench/run.py` against an arbitrary driver |
| `Report.dfy`, `ReportRendering.dfy` | task list, winners, win counts, ranking, Markdown and CSV of `bench/report.py`, and how they show what `run.py` stored |
| `StringTransfer.dfy` | `libcef_dll/transfer_util.cc` between the C containers (`libcef/common/string_map_impl.cc`, `string_multimap_impl.cc`) and the C++ ones |
| `RefCounting.dfy` | `CefRefCount` and `IMPLEMENT_REFCOUNTING` under interleaving, on a 32-bit counter |
| `LibraryState.dfy` | the API version latch and the lazily built name maps of `libcef_dll2.cc` |
| `SectionFilter.dfy` | the output filter of `tools/compile_ib_files.py` |
| `StableSorting.dfy`, `Sequences.dfy`, `Option.dfy` | stable sorting by a preorder, equalities of sequences, the option type |

## How the models are set up

**CDP transport.** A trace is any sequence of steps `Send`, `Arrive`, `Close`,
`Timeout`, `Drain`, `Take`; every step is what runs between two awaits. A future
is pending, resolved or cancelled; `wait_for` cancels it on timeout and leaves its
map entry, so a late reply makes `set_result` raise and the surrounding `except`
ends the reader. Theorems hold for every trace, with no well-formedness condition.
The reference definitions (`Replies`, `Expires`, `LateReply`, `Fatal`, `Touches`,
`FutureIs`) read only the trace. Two expectations turn out false of the code, each
with a concrete trace: a timeout affects more than its own call
(`LateReplyStarvesNextCall`; `ReaderAliveExactly` says exactly when the reader
survives), and a wait does not always return the first event after its own drain
(`OverlappingWaitsSteal`). It does if and only if each drain or take of that name
between its drain and its take comes before the first such event
(`WaitReturnsFirstSinceDrain`), a condition on the trace alone.

**Refinement.** A conversation is a list of rounds: the frames between one send and
the next. `Orderly` asks that no reply overtakes its request and that one call is
outstanding at a time: each call but the last has its reply, with no undecodable
frame before it, when the next is sent. An undecodable frame may follow the reply to
the last call but one, or come anywhere in the last round; it then fails the same
call on both sides. Without these conditions the transports can differ:
after an undecodable frame that left its call without a reply, the next call may be
answered by the sequential client and not by the stopped reader
(`UndecodableSeparates`); so may a call whose reply came before it was sent
(`EarlyReplySeparates`), and one of two calls whose replies cross is answered by the
reader only (`CrossedRepliesSeparate`).

`TransportsAgreeExactly` says when they do not differ, for any interleaving of calls
and frames without timeouts in which no id is answered twice: if and only if the
trace is `InStep`. The replies the reader hears are then those to the first m calls,
in the order of the calls, and there is no reply to a later call where the sequential
client still listens for it: for the first of these, behind those replies and before
the first undecodable frame; for the j-th one after it, between the j-th undecodable
frame and the next. Frames are JSON objects with hashable ids, as "Left out" says.

**Drivers.** A driver is an arbitrary function of everything it has been asked.

**Reference counting.** An interleaving is a list of steps with the states between
them. The counter wraps at 32 bits; the exactly-once theorem holds if and only if no
release sees a wrapped count of one (`SafeExactly`), which is so for up to 2^32
references (`BoundedIsEnough`) and not for 2^32 + 1 (`TooManyReferences`). The classes
`CefRefCount` and `RefCounted` carry the interleaving so far as a ghost field: every
method extends it by the steps it takes, so the theorems speak about them.

**Where code and documentation differ.** `include/cef_api_hash.h:127-128` says the
first call to `cef_api_hash` configures the version; the code latches the first
*supported* request. The model follows the code; `FirstCallConfiguresExactly` says
for which call sequences the documented behaviour is the actual one.
`include/internal/cef_string_map.h:78-79` says that appending overwrites the value of
an existing key; the code keeps the old one (`SharedKeyKeepsOldValue`). A transfer
does what the header says if and only if every key that the C map and the source
share already has one value in both, which is also exactly when the C map then
answers as the source for each of the source's keys (`OverwritesExactly`).

**Empty names.** `report.py:87` tests the best driver's name for truth, so a driver
named "" never becomes a winner (`NamelessWinLost`); `WinsCountTasks` is the exact
condition for the win counts to add up to the measured tasks.

## Model

| member | source | states |
|---|---|---|
| CdpTransport.Transport.StartCall | bench/real-bench.py:557-564 | registering a call takes the next id, a fresh pending future, and nothing else |
| CdpTransport.Transport.ExpireCall | bench/real-bench.py:566 | a timeout cancels a pending future and keeps its map entry |
| CdpTransport.Transport.GetEventQueue | bench/real-bench.py:539-542 | a queue is created empty on first use and returned as it is afterwards |
| CdpTransport.Transport.HandleFrame | bench/real-bench.py:547-555 | one pass of the reader takes exactly one step of the relation, including the two ways it dies |
| CdpTransport.Transport.Reader | bench/real-bench.py:544-555 | the reader loop takes the steps of its frames up to the first failure, and never reads again |
| CdpTransport.Transport.DrainQueue | bench/real-bench.py:582-585 | the drain loop empties the one queue and leaves the rest of the state |
| CdpTransport.Transport.TakeEvent | bench/real-bench.py:586-595 | a completed get returns and removes the head of its queue |
| CdpTransport.DeadReaderIgnoresFrames | bench/real-bench.py:554-555 | a stopped reader changes nothing, whatever still arrives |
| CdpSafety.AlwaysExplained | bench/real-bench.py:533-569 | in every interleaving the state is the one the trace alone prescribes: ids, registrations, reader, every future |
| CdpSafety.LateMeansCancelled | bench/real-bench.py:549-566 | while the reader lives, a reply is to a timed-out call exactly when it finds a registered cancelled future |
| CdpSafety.ReplyStep | bench/real-bench.py:549-553 | dispatching a frame keeps the correspondence between trace and state |
| CdpSafety.QuietStep | bench/real-bench.py:557-566 | so does every other step |
| CdpSafety.ReaderAliveExactly | bench/real-bench.py:546-566 | the reader lives exactly while the stream is open, all frames decode and no reply came for a call that had timed out unanswered |
| CdpSafety.FutureExactly | bench/real-bench.py:549-566 | each future is what the first step concerning its call made of it, both directions; a reply resolves only the call whose id it carries |
| CdpSafety.OutcomeExactly | bench/real-bench.py:566-569 | what cdp_send gives its caller, read off the trace: a timeout iff the timer came first, the reply's error iff the first reply heard has one, else its result or an empty object |
| CdpSafety.SettlesOnce | bench/real-bench.py:550-566 | a settled future never changes again |
| CdpSafety.IdsNeverReused | bench/real-bench.py:558-564 | a new id exceeds every id registered at any earlier point, and registered ids are between 1 and msg_id |
| CdpSafety.NoAnswerAfterStop | bench/real-bench.py:544-566 | once the reader has stopped, no call is ever answered |
| CdpSafety.LateReplyStarvesNextCall | bench/real-bench.py:549-566 | concrete run: a late reply to one call leaves the next call unanswered although its reply arrives |
| CdpEvents.QueueStep | bench/real-bench.py:551-553 | each step: removed plus new queue equals old queue plus announced |
| CdpEvents.EventsConserved | bench/real-bench.py:539-595 | per name, events dispatched so far equal events removed, in order, followed by the queue |
| CdpEvents.WaitReturnsFirstSinceDrain | bench/real-bench.py:579-595 | a completed wait or navigate returns the first event after its own drain if and only if every other drain or take since comes before that event |
| CdpEvents.UndisturbedExactly | bench/real-bench.py:539-595 | that condition on the trace holds exactly when nothing has left the queue since the drain |
| CdpEvents.SoleWaiterGetsFirst | bench/real-bench.py:579-595 | with one consumer per name a wait can complete exactly when an event came after its drain, and returns the first such event |
| CdpEvents.OverlappingWaitsSteal | bench/real-bench.py:581-586 | concrete run: a second wait's drain discards the event the first is waiting for |
| SequentialClient.Client.Send | bench/cef-bench-standalone.py:63-75 | the loop ends with the reply carrying the id, by raising, or by the fifteen-second timeout, and leaves what follows unread |
| SequentialClient.ListenStops | bench/cef-bench-standalone.py:70-75 | a call stops at the first thing it cannot skip, wherever it is: its reply, an undecodable frame, a silence |
| SequentialClient.ListenExhausts | bench/cef-bench-standalone.py:70-71 | with only foreign frames the call reads everything and raises |
| CdpRefinement.RoundFrames | bench/real-bench.py:547-553 | with one call outstanding its future takes the first frame with its id, and no other frame before an undecodable one changes any future |
| CdpRefinement.RoundEnds | bench/real-bench.py:544-555 | a whole round: the call is resolved iff its reply comes before the first undecodable frame, which ends the reader |
| CdpRefinement.RoundsAgree | bench/real-bench.py:544-569 | from any matching states of both transports the remaining orderly rounds give the same answers, call by call |
| CdpRefinement.DispatchRefinesScan | bench/real-bench.py:544-569 | for every orderly conversation, undecodable frames included, each call gets the same reply, result, error or lack of an answer from both transports |
| CdpRefinement.EarlyReplySeparates | bench/real-bench.py:549-553 | concrete run: a reply read before its request is sent tells the transports apart |
| CdpRefinement.UndecodableSeparates | bench/real-bench.py:554-555 | concrete run: after an undecodable frame in place of a reply the transports part at the next call |
| TransportAgreement.FutureIsHeard | bench/real-bench.py:544-566 | without timeouts a future holds the reply its call heard, and is pending exactly when it heard none |
| TransportAgreement.AnswersAre | bench/cef-bench-standalone.py:63-75 | each sequential call answers with the first frame it cannot skip behind where the call before it stopped |
| TransportAgreement.TransportsAgreeExactly | bench/real-bench.py:544-569 | for any interleaving of calls and frames with no id answered twice, both transports give every call the same iff the trace is in step |
| TransportAgreement.CrossedRepliesSeparate | bench/cef-bench-standalone.py:70-75 | concrete run: of two crossed replies the reader hears both and the sequential client one |
| Statistics.Round3Monotone | bench/run.py:205-210 | rounding to thousandths is monotone |
| Statistics.Round3Close | bench/run.py:69 | rounding moves a value by at most half a thousandth and leaves thousandths alone |
| Statistics.Round3Exactly | bench/run.py:69 | rounding gives the nearest thousandth, of two the even one, and no other number |
| Statistics.SortOrderFree | bench/run.py:192 | sorting depends only on which samples there are |
| Statistics.SortBelow | bench/run.py:192 | sorting preserves pointwise domination up to any slack |
| Statistics.PercentileDominates | bench/run.py:192-200 | pointwise smaller durations never give a larger percentile |
| Statistics.PercentileStable | bench/run.py:192-200 | moving each duration by at most e moves every percentile by at most e |
| Statistics.PercentileSplits | bench/run.py:195-200 | at least lo+1 samples lie at or below the percentile and at least n-hi at or above |
| Statistics.AtMonotone | bench/run.py:195-200 | percentiles grow with the percentage on 0 to 100 |
| Statistics.AtInterpolates | bench/run.py:195-200 | from position k to k+1 of n sorted samples the percentile runs linearly from the k-th to the next, both ends included |
| Statistics.AtSingle | bench/run.py:195-200 | one sample is its own percentile |
| Statistics.PercentileApart | bench/run.py:192-200 | durations smaller by at least d give percentiles smaller by at least d |
| Statistics.Round3Strict | bench/run.py:205-210 | values more than a thousandth apart stay apart when rounded |
| Statistics.Round3StrictIsTight | bench/run.py:205-210 | a thousandth apart is not enough: halves go to the even neighbour |
| Statistics.StatsReport | bench/run.py:202-210 | the reported numbers are the count, the rounded mean, the rounded 50th, 95th and 99th percentiles and the rounded extreme samples |
| Statistics.StatsMean | bench/run.py:204 | the reported mean is the rounded number that times the count gives the sum |
| Statistics.SumAppend | bench/run.py:204 | the sum of two lists is the sum of their sums |
| Statistics.StatsOrdered | bench/run.py:188-210 | no samples no statistics; otherwise min <= p50 <= p95 <= p99 <= max and min <= mean <= max, all rounded |
| Statistics.StatsOrderFree | bench/run.py:188-210 | the statistics do not depend on the order of the samples |
| Statistics.StatsDominate | bench/run.py:188-210 | uniformly faster samples never report a larger number |
| TaskRunner.Session.Do | bench/run.py:88-171 | one driver call is answered after everything asked before it |
| TaskRunner.Session.RunSingle | bench/run.py:104-131 | one-call tasks report their call |
| TaskRunner.Session.DoBoth | bench/run.py:134-143 | two-call tasks make the second call only after a success and add up the time |
| TaskRunner.Session.NavigateAll | bench/run.py:145-154 | the page loop stops at the first failure with the time spent so far |
| TaskRunner.Session.RunColdStart | bench/run.py:93-102 | cold start tears down unmeasured, then times setup and navigation |
| TaskRunner.Session.RunMeasured | bench/run.py:93-181 | every branch carries out its task's plan and reports its time, success and error |
| TaskRunner.Session.RunIteration | bench/run.py:85-183 | one pass of the loop carries out pre-navigation and plan and records the entry for it |
| TaskRunner.Session.RunTask | bench/run.py:78-185 | exactly `iterations` entries, none when that is negative; the calls made fall into one stretch an iteration, each following the plan after everything before it, and each entry reports its own stretch |
| TaskRunner.EntriesAt | bench/run.py:83-185 | entry i depends only on the log before iteration i and its own attempt |
| TaskRunner.ExecuteAppend | bench/run.py:88-174 | carrying out one plan after another is carrying out their concatenation, unless the first fails |
| TaskRunner.IterationCalls | bench/run.py:85-183 | the calls of an iteration follow its plan, none follows a failed one, and only a failure cuts the plan short |
| TaskRunner.IterationResult | bench/run.py:85-183 | success iff the task is known and every call succeeded; time is the rounded sum of the measured calls or that of the failed pre-navigation; the error is the last call's, except for failed page sequences and unknown tasks |
| TaskRunner.RunOutcome | bench/run.py:78-185 | the returned list and the calls behind it, iteration by iteration, are what the two rows above say |
| TaskRunner.PlanIsScript | bench/run.py:87-174 | the calls the code plans are those listed for each task id; the page is opened first for every task with a url but cold_start and navigate_complex |
| TaskRunner.IterationAsks | bench/run.py:85-183 | an iteration asks a beginning of its task's listed calls, all of them when every call succeeds, ending with a failure otherwise |
| TaskRunner.IterationTimes | bench/run.py:85-183 | cold_start is charged for setup and navigation, navigate_complex for its one call, any other task for what it does once its page is open |
| TaskRunner.OutcomeDetermined | bench/run.py:78-185 | for a given driver and task there is only one such list of calls and entries |
| Report.DistinctIsFirstSeen | bench/report.py:37-44 | the task list has each id once, in first-seen order |
| Report.CollectTaskIds | bench/report.py:37-44 | the nested loops with the seen set compute that list |
| Report.SameTasksListed | bench/report.py:25-44 | Markdown and CSV list the same tasks in the same order; CSV drivers are a subsequence of Markdown drivers |
| Report.FindExactly | bench/report.py:63 | looking up a task id gives its own entry, or an empty one |
| Report.ShownExactly | bench/report.py:25 | Markdown shows each driver unless it failed without tasks, CSV each driver with tasks |
| Report.ShownInOrder | bench/report.py:25 | both in the order of the dictionary |
| Report.BestIsFirstLeast | bench/report.py:69-82 | the loop ends with the first driver attaining the least p50, and with none iff there is no p50 |
| Report.BuildRow | bench/report.py:59-90 | one row has a cell for every header column, and the winner is the recorded first-least driver |
| Report.RowAt | bench/report.py:68-85 | columns 3d+1 to 3d+3 of a row show driver d's p50, p95 and p99, or FAIL, FAIL and its rate |
| Report.DisplayNameIsFirst | bench/report.py:60-66 | a task is shown under the first nonempty name a driver gives it |
| Report.DisplayNameIsId | bench/report.py:60-66 | and under its id when none does |
| Report.FindDisplayName | bench/report.py:60-66 | the first nonempty display name, else the id |
| Report.WinnersAre | bench/report.py:58-88 | the recorded winners are exactly the named first-least drivers of the listed tasks |
| Report.WinsCountTasks | bench/report.py:120-125 | all win counts sum to the recorded winners, and to the tasks having a p50 iff none is won by a nameless driver |
| Report.NamelessWinLost | bench/report.py:87-88 | concrete results: one measured task, won by a driver named "", and no win counted |
| Report.RankingIsStable | bench/report.py:137-140 | the ranking is the one stable permutation ordered by wins descending, then average ascending |
| Report.RanksAboveExactly | bench/report.py:137-140 | a driver ranks above another iff it is strictly ahead by wins and average, or on a par and first in the results |
| Report.AverageExactly | bench/report.py:126-135 | the average times the number of p50s is their total; none without a p50 |
| Report.WinsAreTasksWon | bench/report.py:123-125 | a driver's wins number the listed tasks whose least p50 it, having a name, attains first |
| Report.RanksByNumbers | bench/report.py:120-140 | above stands who won more tasks; with equal wins, whose p50s average less; with equal averages, who comes first in the results |
| Report.LoserNeverWins | bench/report.py:69-88 | a driver that another beats on all its tasks wins none |
| Report.FasterRanksAbove | bench/report.py:69-140 | strictly faster on each of one or more common tasks ranks strictly above, whatever other drivers did |
| Report.WinsImproved | bench/report.py:69-125 | lowering a driver's p50s never loses it a task nor gains another driver one |
| Report.ImprovingKeepsRank | bench/report.py:69-140 | lowering a driver's p50s on tasks it has keeps it above every driver it ranked above, whatever the others did |
| Report.ShownDistinct | bench/report.py:25 | the drivers shown have distinct names when those of the dictionary do |
| Report.MeasuredIsShown | bench/report.py:25 | a driver with a p50 is shown, failed or not |
| Report.FasterRanksAboveInReport | bench/report.py:25-140 | the same for the ranking printed for a results dictionary |
| Report.ImprovingKeepsRankInReport | bench/report.py:25-140 | so does it in the ranking printed for a results dictionary |
| ReportRendering.CountWins | bench/report.py:123-125 | the count of tasks won by a driver |
| ReportRendering.AverageP50 | bench/report.py:126-135 | the average over listed tasks with a p50, infinite when there is none |
| ReportRendering.HeaderAt | bench/report.py:51-54 | columns 3d+1 to 3d+3 of the header are driver d's p50, p95 and p99 |
| ReportRendering.FindRecorded | bench/report.py:106-110 | looking a task up in task_winners gives its own winner |
| ReportRendering.DetailRows | bench/report.py:57-90 | the detail table in task order, and the recorded winners |
| ReportRendering.WinnerRows | bench/report.py:99-110 | the winner table shows for each task its own winner |
| ReportRendering.Rank | bench/report.py:120-140 | counting, averaging and sorting give the stable ranking of the standings |
| ReportRendering.GenerateMarkdown | bench/report.py:21-149 | empty report iff no drivers; else full-width rows, winners and ranking for the shown drivers |
| ReportRendering.GenerateCsv | bench/report.py:166-199 | the CSV loops produce the task-by-driver table |
| ReportRendering.CsvGrid | bench/report.py:181-197 | tasks times drivers lines, task by task, drivers in order |
| ReportRendering.RenderingsAgree | bench/report.py:25-199 | both renderings enumerate one duplicate-free task list |
| RunToReport.OkDurationsCount | bench/run.py:314-321 | the success count is between none and all, each attained exactly when expected |
| RunToReport.OkDurationsExactly | bench/run.py:315-317 | the durations kept are those of the successful iterations, each in its place |
| RunToReport.RateExactly | bench/run.py:319-328 | the stored rate is the number of successes over that of iterations, rounded; 0 without iterations |
| RunToReport.FailExactly | bench/report.py:72-85 | for results stored by run.py a cell reads FAIL iff no iteration succeeded, then beside 0%; otherwise it shows the three rounded percentiles of the successful ones |
| RunToReport.NotRunFails | bench/report.py:73-85 | a driver that did not run a task shows FAIL and 0% |
| RunToReport.CsvShowsStats | bench/report.py:181-197 | each of the six CSV columns shows its own statistic, and nothing when no iteration succeeded |
| RunToReport.NameShown | bench/report.py:60-68 | a row starts with the task's name from the first driver that ran it |
| RunToReport.RateInRange | bench/run.py:319-328 | the stored success rate is between 0 and 1, and 1 when all succeeded |
| RunToReport.StoredP50 | bench/run.py:314-329 | a driver has a p50 for a task iff it ran it with some success, and it is the rounded median of those runs |
| RunToReport.FasterSamplesRankAbove | bench/report.py:25-140 | end to end: in the report of a results dictionary, samples faster by more than a thousandth on every task rank their driver strictly above, whatever the others did |
| StringTransfer.KeyTotal | libcef/common/string_types_impl.cc:177-196 | the key order is total, and only equal strings are equivalent |
| StringTransfer.KeyTransitive | libcef/common/string_types_impl.cc:177-196 | the key order is transitive |
| StringTransfer.KeyLeqExactly | libcef/common/string_types_impl.cc:177-196 | a string goes first iff it is a beginning of the other or has the smaller code unit where they first differ |
| StringTransfer.CMap.Append | libcef/common/string_map_impl.cc:26-32 | the C map ignores a key it has and otherwise appends |
| StringTransfer.StdMap.Emplace | libcef_dll/transfer_util.cc:34 | map insertion never overwrites |
| StringTransfer.StdMultimap.Emplace | libcef_dll/transfer_util.cc:54 | multimap insertion puts the pair behind those with its key and leaves every other key's pairs |
| StringTransfer.MultimapFromC | libcef_dll/transfer_util.cc:45-56 | the result is the stable sort by key of old contents followed by source pairs |
| StringTransfer.MultimapDetermined | libcef_dll/transfer_util.cc:45-56 | being that sort is the same as: in key order, and per key the old values followed by the new ones |
| StringTransfer.MultimapToC | libcef_dll/transfer_util.cc:58-63 | the C multimap gains the pairs in key order |
| StringTransfer.MultimapRoundTrip | libcef_dll/transfer_util.cc:45-63 | multimap to C and back into an empty one is the identity |
| StringTransfer.MapFromC | libcef_dll/transfer_util.cc:26-36 | per key the destination's own value wins, else the first source value |
| StringTransfer.MapInserted | libcef_dll/transfer_util.cc:30-35 | inserting any pairs, repeated keys included, keeps a map and shows per key its own value, else the first that came |
| StringTransfer.MapToC | libcef_dll/transfer_util.cc:38-43 | the C map keeps its entries and gains the new keys in key order; it ends as documented, and answers as the source, iff shared keys agreed before |
| StringTransfer.OverwritesExactly | include/internal/cef_string_map.h:77-83 | the transfer ends as appending with the documented overwriting, pair by pair, would; and it answers as the source for each of its keys; each iff shared keys had the source's values before |
| StringTransfer.SharedKeyKeepsOldValue | libcef/common/string_map_impl.cc:26-32 | concrete transfer: a key the C map has keeps its old value |
| StringTransfer.MapRoundTrip | libcef_dll/transfer_util.cc:26-43 | map to C and back into an empty one is the identity |
| StringTransfer.MapUnique | libcef_dll/transfer_util.cc:26-36 | a map's contents are determined by what it answers per key |
| StringTransfer.MapIsFirstOfMultimap | libcef_dll/transfer_util.cc:26-56 | given the same start and the same pairs, repeated keys or not, the map ends with exactly the first value per key of the multimap |
| StableSorting.SortStable | bench/report.py:137-140 | the sort is ordered, a permutation and stable |
| StableSorting.SortCharacterised | bench/report.py:137-140 | order and stability leave exactly one result |
| StableSorting.SortedBefore | bench/report.py:137-140 | of two elements one stands first in the sorted list iff it is strictly below, or equal and first already |
| RefCounting.CefRefCount.AddRef | include/cef_base.h:105 | one step of the interleaving: the thread gains a reference and the counter stays the wrapped number of references |
| RefCounting.CefRefCount.Release | include/cef_base.h:110 | one step of the interleaving; true iff no reference is left as far as 32 bits tell, and then this thread has to delete |
| RefCounting.CefRefCount.HasOneRef | include/cef_base.h:115 | true iff the references held number one as far as 32 bits tell; up to 2^32 of them, for a holder, iff its own is the only one |
| RefCounting.CefRefCount.HasAtLeastOneRef | include/cef_base.h:120 | true iff references are held, as far as 32 bits tell |
| RefCounting.RefCounted.Release | include/cef_base.h:143-149 | decrement, then delete on zero; without wrapped ones the object is deleted by the release that leaves no reference, by no other, and was there until then |
| RefCounting.CountIsReferences | include/cef_base.h:95-131 | in every interleaving the counter is the number of references held, modulo 32 bits |
| RefCounting.HeldExactly | include/cef_base.h:95-131 | a thread holds the references it took and has not given up |
| RefCounting.ToInt32Exactly | include/base/cef_atomic_ref_count.h:71-86 | the counter's value is the one 32-bit integer congruent to the true count modulo 2^32 |
| RefCounting.AlwaysSafe | include/cef_base.h:143-149 | the safety invariant holds at every point of an interleaving without a wrapped one |
| RefCounting.SafeExactly | include/cef_base.h:138-149 | deletion is safe throughout an interleaving iff no release saw a wrapped count of one |
| RefCounting.DeletedExactlyOnce | include/cef_base.h:138-149 | at most one delete, only with no references, guaranteed at the end, and nothing can happen after it |
| RefCounting.HasOneRefIsExclusive | include/base/cef_atomic_ref_count.h:88-96 | a count of one means one reference modulo 2^32; with up to 2^32 references a holder that sees it holds the only one |
| RefCounting.PrematureDeleteExactly | include/cef_base.h:143-149 | a release starts a delete with references left iff the counter has wrapped to one |
| RefCounting.BoundedIsEnough | include/cef_base.h:131 | up to 2^32 simultaneous references no release sees a wrapped one |
| RefCounting.TooManyReferences | include/base/cef_atomic_ref_count.h:71-86 | with 2^32 + 1 references a release deletes while 2^32 remain |
| ApiVersion.Library.ApiHash | libcef_dll/libcef_dll2.cc:74-112 | one call takes one step of the latch, answers from the state it leaves, and keeps the statics what the calls so far made of them |
| ApiVersion.Library.Version | libcef_dll/libcef_dll2.cc:114-116 | the first supported version among the calls so far, -1 when there is none |
| ApiVersion.LatchExactly | libcef_dll/libcef_dll2.cc:77-89 | the configured version is the first requested one the table has, with its first row; before that nothing is configured |
| ApiVersion.LatchHolds | libcef_dll/libcef_dll2.cc:78-99 | once configured nothing changes |
| ApiVersion.AnswerExactly | libcef_dll/libcef_dll2.cc:91-111 | a non-null answer is for the version the history configured and one of four entries, and is that build's value |
| ApiVersion.NoAnswerUnconfigured | libcef_dll/libcef_dll2.cc:91-94 | until a supported version is requested every answer is null |
| ApiVersion.FirstCallConfiguresExactly | include/cef_api_hash.h:126-138 | the documented first-call rule holds of a call sequence iff its first call is supported or none is |
| ApiVersion.SecondCallConfigures | libcef_dll/libcef_dll2.cc:77-89 | concrete run: an unsupported first call leaves the latch open |
| NameIndex.LazyIndex.IdFor | libcef_dll/libcef_dll2.cc:120-137 | a lookup answers as a scan from the end of the table, built or not, and leaves the complete map |
| NameIndex.MapIsScan | libcef_dll/libcef_dll2.cc:124-133 | the built map and the scan from the end agree on every name |
| NameIndex.LastDuplicateWins | libcef_dll/libcef_dll2.cc:125-127 | of several rows with a name the last one counts |
| NameIndex.AbsentIsMinusOne | libcef_dll/libcef_dll2.cc:130-136 | an absent name gives -1 |
| SectionFilter.FilterLines | tools/compile_ib_files.py:43-51 | the loop prints the input without suppressed lines and without headers of sections left empty |
| SectionFilter.HeaderExactly | tools/compile_ib_files.py:36 | a header is "/*", anything, "*/", anything |
| SectionFilter.ClippingNoteExactly | tools/compile_ib_files.py:37 | a clipping note holds the two phrases in that order |
| SectionFilter.FilterKeepsExactly | tools/compile_ib_files.py:43-51 | that is exactly the kept lines, each once, in order: a header iff a plain line follows before the next header |
| SectionFilter.FilterTwice | tools/compile_ib_files.py:43-51 | filtering the output again changes nothing |

## Left out

- Floating point: durations, percentiles and averages are exact reals; rounding error, NaN, infinite inputs and the standard deviation (a square root) are not modelled.
- Websockets, processes, page scripts, sleeping and printing: their outcomes are inputs (frames, timeouts, driver answers).
- A failing `ws.send` in `cdp_send`: the call is then registered and never awaited, which is a `Send` without a later `Timeout`.
- JSON beyond what the code looks at: payloads are opaque, and frames are JSON objects with hashable ids, or do not decode (`Undecodable`). Some other frames raise in one client only: `[]` in the sequential one, `{"id": [1]}` in the reader.
- TaskRunner: drivers that raise (run.py then stores one failed entry), and the file names passed to screenshots and state files, of which only the iteration number is kept.
- TaskRunner.Session.RunMeasured: the ten URLs of `navigate_10x` are any list of pages, and the known task ids are constructors instead of strings.
- Number and percentage formatting, table punctuation and the setup-time table of the Markdown report: rows are sequences of cells.
- List transfers (`transfer_util.cc:7-24`): appending element by element.
- `IMPLEMENT_REFCOUNTING`'s forwarding `AddRef`, `HasOneRef` and `HasAtLeastOneRef`: they are those of the counter.
- StringTransfer: the standard containers are their contents in iteration order; iterators, allocation and the `map_` member of the C multimap are not modelled.
- Weak-memory effects of the atomic counter: each atomic operation is one step.
- The twins `cef_id_for_pack_string_name` and `cef_id_for_command_id_name`: they are `NameIndex` over other tables; table contents are arbitrary sequences.
- `cef_version_info`, `shutdown_checker.cc`, `template_util.h` and all interface headers without bodies.
