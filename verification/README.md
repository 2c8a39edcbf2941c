# Verified model of the length-value-model tooling

A Dafny model of the algorithmic parts of this repository: the streaming statistics of the token analysis, the
resumable data generator, regrouping and downsampling, the span-lane allocator of the trace converter, pass@k with and
without token budgets, the request workers with their append-only log, and the block expansion of a model's weights.
`dafny verify dfyconfig.toml` checks everything.

Code that changes things step by step is modelled by classes and methods with loops; what it promises is proved about
the functions those methods compute. Whatever the programs cannot control is an arbitrary choice: random draws and
shuffles, which task or request completes next, which ones fail, the judges, the tokenizer, the moment a process is
killed, the attention and MLP blocks of a model.

| file | what it models |
|---|---|
| Reservoir | `ReservoirSampler`, with the draws as an explicit sequence; uniformity by counting draw sequences |
| Welford, TokenStats | `RunningStats`, `TokenAgg`, the recording of a score, the accumulation over completed batches |
| TemporalDifference | the gamma score, the scoring of one sample, the table of one response |
| BatchPipeline | the bounded submit-and-drain loop of the token analysis |
| Records, TaskPool, Restarts | the generated file, `process_dataset`, and histories of interrupted runs |
| Regroup, Downsample | `group_shuffle_jsonl_by_index`, the downsampler, and the two in sequence |
| Lanes, LaneRules, LaneOptimality, SpanLayouts | `SpanLayoutContainer`, `__find_line`, `generate_perfetto_span_layout` |
| PassAtK, Responses, Budget, Fractions, Evaluators | the pass@k estimator and the two evaluators built on it |
| ResumeLog, ResumeHistory | `run_requests` and the resume scan of `sample_eval.py`, and histories of resumed runs |
| BlockExpansion | `change_name` and the loops of `block_expansion`, with the function the weights compute |
| Combinatorics, Sorting, Arithmetic, Basics | shared mathematics |

## What the proofs found

- Lanes: a zero-length span skips the overlap check. `Lanes.RunLaid` gives the exact condition under which the lanes of
  a pid stay sorted and disjoint; `Lanes.HiddenPointBreaksLane` is the failing family.
- Lanes: a pid with spans in several rooms can get more lanes than it ever has spans alive at once
  (`LaneOptimality.TwoRoomsMayWaste`); a pid of one room never does, whatever the other rooms and pids hold
  (`SpanLayouts.SingleRoomOptimal`). Arriving in start order is sufficient for the optimal number, not necessary:
  spans in another order can be optimal too.
- Downsampling: a JSONL file with a single record is itself a JSON document that is not a list, so it is refused
  although the JSONL branch would accept it (`Downsample.RegroupThenDownsample`).
- Block expansion: a negative `num_expand` passes the divisibility check and the layer count written to the
  configuration then disagrees with the weights (`BlockExpansion.AnnouncedLayers`).
- Block expansion: a name is matched and renumbered as it should be for all layers exactly when, behind its first
  number, it has no other inner number below the layer count, apart from an equal number directly after the first
  (`BlockExpansion.RenamedExactly`). Expert 40 of a 32-layer model is harmless; expert 0 is not, and
  `BlockExpansion.TwoNumbersBreak` shows what is then missing.
- Resuming: an index whose answers so far are all blank is asked again, but its blank rows stay in the file and both
  evaluators count them. `ResumeHistory.CountedTwiceExactly` says for one run, and `ResumeHistory.SeveralSources` for
  any history, exactly when the counted rows of an index come from more than one response.
- Budgets: only the unlimited evaluator has a judge for rows with a question type. For files with such rows there are
  judges under which no budget gives the unlimited pass@1 (`Budget.QuestionTypesMatter`). The request workers never
  write a question type, so files of this program are not affected (`ResumeHistory.WrittenUntyped`).

## Model

| member | source | states |
|---|---|---|
| Reservoir.ReservoirSampler.Update | inference/length_token/analyze_length_token.py:138-151 | the buffer after an item, for every k, is the pure update of the old one; the draw is any number below the items seen |
| Reservoir.PositionsShape | inference/length_token/analyze_length_token.py:138-151 | for every sequence of draws the buffer holds min(k, n) values from distinct stream positions |
| Reservoir.DrawsCount | inference/length_token/analyze_length_token.py:149-151 | there are n!/k! sequences of draws for n items |
| Reservoir.UniformInclusion | inference/length_token/analyze_length_token.py:138-151 | every stream position survives in S of the T draw sequences with n S = k T |
| Reservoir.SubsetOutcomes | inference/length_token/analyze_length_token.py:138-151 | every k-subset of the positions is the final buffer of exactly (n - k)! draw sequences |
| Reservoir.UniformSubset | inference/length_token/analyze_length_token.py:138-151 | all k-subsets of the positions are equally likely |
| Welford.WelfordStep | inference/length_token/analyze_length_token.py:105-111 | the incremental mean and M2 stay the two-pass mean and sum of squared deviations |
| Welford.RunningStats.Update | inference/length_token/analyze_length_token.py:105-111 | after any stream the fields are the two-pass summary of exactly that stream |
| Welford.RunningStats.TwoPass | inference/length_token/analyze_length_token.py:97-111 | in every reachable state mean = sum/n and M2 is the sum of squared deviations from it, not negative |
| Welford.RunningStats.GetMean | inference/length_prediction/eval_first_token_prediction.py:403-404 | the mean of the stream, 0 when nothing was seen |
| Welford.RunningStats.GetStdSquared | inference/length_prediction/eval_first_token_prediction.py:406-410 | without the sample flag the square of get_std times n is the sum of squared deviations from the mean, with it times n - 1; both are 0 for at most one value |
| Welford.VarianceLaw | inference/length_prediction/eval_first_token_prediction.py:121-125 | the population variance times n is the sum of squared deviations, and 0 for at most one value |
| Welford.Accumulate | inference/length_prediction/eval_first_token_prediction.py:723-815 | for any completion order with failed batches, sum, count and statistics are those of the values delivered |
| Welford.OneBatch | inference/length_prediction/eval_first_token_prediction.py:723-815 | a completed batch delivers its values and loses nothing, a failed one the other way round |
| Welford.OrderIndependent | inference/length_prediction/eval_first_token_prediction.py:723-815 | two completion orders of the same batches give the same n, mean, M2 and variance |
| TokenStats.TokenAgg.Update | inference/length_token/analyze_length_token.py:526-538 | counts, threshold counts, extremes, statistics and the reservoir stay those of exactly the scores seen |
| TokenStats.CountsAre | inference/length_token/analyze_length_token.py:528-533 | the threshold counters are the numbers of scores strictly beyond the thresholds |
| TokenStats.ScoreBoard.Record | inference/length_token/analyze_length_token.py:907-912 | one scored token extends the history of the global statistics, the global sample and its own token's aggregate, and of no other |
| TokenStats.ScoreBoard.Samples | inference/length_token/analyze_length_token.py:785-799 | in every reachable state a token's reservoir is a sample of exactly that token's scores, and the global one of all scores; a size that is not positive builds none for a token |
| TokenStats.Partition | inference/length_token/analyze_length_token.py:785-799 | grouping a history by token loses nothing: counts, sums and squared deviations from any point add up |
| TokenStats.ScoresOfAre | inference/length_token/analyze_length_token.py:785-799 | the scores of a token are those recorded under its id, in order |
| TokenStats.ScoreBoard.Recombination | inference/length_token/analyze_length_token.py:907-912 | in every reachable state the per-token statistics recombine to the global count, mean and M2 |
| TokenStats.FieldsRecombine | inference/length_token/analyze_length_token.py:97-120 | counts sum to n, count-weighted means to n times the mean, and M2_tok + n_tok (mean_tok - mean)^2 to M2 |
| TokenStats.TotalsAre | inference/length_token/analyze_length_token.py:97-120 | the three totals are sums over the tokens of n, n mean, and M2 + n (mean - m)^2 |
| TemporalDifference.GapsCancel | inference/length_token/analyze_length_token.py:894-895 | a discounted score is a difference of two neighbouring discounted gaps 1 - p, so their sum is the first gap less the last |
| TemporalDifference.Telescopes | inference/length_token/analyze_length_token.py:894-895 | the discounted sum of T scores is (1 - gamma^T) + gamma^T p_T - p_0 |
| TemporalDifference.ZeroMeansDecay | inference/visualization/real_sample_tree_value_visualization.py:457 | all scores are zero exactly when 1 - p_t = (1 - p_T) gamma^(T-t) at every step |
| TemporalDifference.ClampIdle | inference/length_prediction/eval_first_token_prediction.py:68-75 | the clamp of the length-to-value map never acts on a true length |
| TemporalDifference.OtherLengths | inference/length_prediction/eval_first_token_prediction.py:68-75 | lengths below zero get value 0; a gamma outside (0, 1) is refused |
| TemporalDifference.ZeroMeansTrueLengths | inference/length_prediction/eval_first_token_prediction.py:68-75 | all scores are zero and p_T = 0 exactly when every p_t is the value of the true remaining length |
| TemporalDifference.ScoreSample | inference/length_token/analyze_length_token.py:861-907 | each score is gamma cur - prev + 1 - gamma of two neighbouring values, one half standing for an end token; an end token before the last place stops the sample behind its own score; invalid spans leave none |
| TemporalDifference.SampleSum | inference/length_token/analyze_length_token.py:872-895 | the discounted sum of a complete sample is the closed form, with 0.5 in place of the last value when the last token is the end token |
| TemporalDifference.BuildRows | inference/visualization/real_sample_tree_value_visualization.py:324-346 | the rows are consecutive steps with their true remaining lengths, from the clamped start or the last prompt token, for every argument |
| TemporalDifference.TdColumn | inference/visualization/real_sample_tree_value_visualization.py:447-459 | the dictionary loop yields 0 in the first row and then, row by row, the score between neighbouring rows |
| TemporalDifference.ZeroColumn | inference/visualization/real_sample_tree_value_visualization.py:331-457 | a full table is all zeros and ends in 0 exactly when each row shows the value of its remaining length |
| BatchPipeline.Pipeline.Run | inference/length_token/analyze_length_token.py:1028-1084 | for any completion order and failures: no more than max_conc requests in flight, nothing left in flight, all lines used without a limit and the first max_samples with one, each prepared or recorded as not preparable |
| BatchPipeline.Pipeline.ProcessBatchResult | inference/length_token/analyze_length_token.py:858-1006 | each sample of a completed batch becomes a success or a failure recorded as one of processing, and keeps exactly one place |
| BatchPipeline.ExactlyOnePlace | inference/length_token/analyze_length_token.py:1028-1084 | after a run each used line is in exactly one of succeeded, process-failed, request-failed and prepare-failed |
| BatchPipeline.LinesOfCount | inference/length_token/analyze_length_token.py:1039-1062 | a line is listed under a kind of failure as often as it was recorded with that kind |
| Records.LoadExistingData | data_generation/data_generator/utils.py:30-56 | the counts are the row counts of every index in the file, whatever else its lines hold |
| Records.RowCountIs | data_generation/data_generator/utils.py:30-56 | the row count of an index is the number of lines that are rows of it |
| TaskPool.PlanCount | data_generation/data_generator/processor.py:27-39 | each sampled index is planned exactly max(0, wanted - existing) times even if it repeats in the samples |
| TaskPool.PlanInOrder | data_generation/data_generator/processor.py:27-39 | the tasks of an index follow each other, in the order in which the indices first appear among the samples |
| TaskPool.TaskGenerator.Next | data_generation/data_generator/processor.py:27-39 | the generator yields its plan item by item and credits an index only when resumed |
| TaskPool.ProcessDataset | data_generation/data_generator/processor.py:41-85 | for any completion order, failures, or a kill while waiting, between finished tasks or inside a save: pending never above 2 max_concurrency; a full run schedules exactly the plan and writes every result once in completion order; a killed run writes a prefix and loses at most save_batch_size results |
| TaskPool.RowsAre | data_generation/data_generator/processor.py:41-85 | the rows written are one for each outcome with a payload, with its index and payload, in completion order |
| TaskPool.IdxCountIs | data_generation/data_generator/processor.py:41-85 | the outcomes counted for an index are those that have it |
| Restarts.Generate | data_generation/data_generator/processor.py:33-85 | one start of the program, counts loaded from the file: per index no more tasks than are missing, exactly as many in a full run, and their rows appended in order |
| Restarts.GenerateRepeatedly | data_generation/data_generator/processor.py:33-85 | any number of starts over one file is a history as below: rows are only appended and no count passes max(initial, wanted) |
| Restarts.RunCounts | data_generation/data_generator/processor.py:33-39 | a run never lowers a count, never passes max(initial, wanted), and reaches it when nothing fails |
| Restarts.HistoryCounts | data_generation/data_generator/utils.py:30-74 | the same bounds between any two moments of any history of restarts |
| Restarts.CompletedStays | data_generation/data_generator/processor.py:33-39 | after a failure-free run a sampled index has max(initial, wanted) rows, and keeps them through all later runs |
| Regroup.GroupShuffle | data_generation/data_generator/utils.py:91-134 | for any shuffles the output is the groups of the indices followed by the lines set aside: a permutation of the non-blank lines, equal indices together, counts unchanged |
| Regroup.LinesKept | data_generation/data_generator/utils.py:91-134 | which lines form a group, are set aside, or are dropped, and that their order is kept |
| Regroup.Permutation | data_generation/data_generator/utils.py:91-134 | the output is a permutation of the non-blank input lines |
| Regroup.EqualIndicesAdjacent | data_generation/data_generator/utils.py:82-87 | equal indices are contiguous, and lines without an index come last in their original order |
| Regroup.CountsKept | data_generation/data_generator/utils.py:30-56 | the counts loaded before and after regrouping agree for every index |
| Downsample.LoadRecords | data_generation/utils/downsampler.py:86-113 | which files load and with what records; a file of one record is refused |
| Downsample.Downsample | data_generation/utils/downsampler.py:141-181 | which check fails for which arguments, in their order; otherwise record a n + b is row within[a][b] of question selected[a], all distinct, the first ones in order in head mode, and a negative count keeps every question |
| Downsample.NoRecordTwice | data_generation/utils/downsampler.py:169-181 | for any dataset the output is part of it with no record used twice |
| Downsample.RowsPerQuestion | data_generation/utils/downsampler.py:169-181 | blocks of one question each yield n rows of each selected question and none of any other |
| Downsample.RegroupThenDownsample | data_generation/utils/downsampler.py:148-181 | regrouping then downsampling, g rows per index: succeeds exactly for valid parameters and more than one record, and leaves m questions with n of their rows each |
| Lanes.NeighboursSuffice | sglang-LenVM/scripts/convert_otel_2_perfetto.py:58-70 | on a sorted disjoint lane the two-neighbour test is true exactly when some interval of the lane meets the query |
| Lanes.InsortLaid | sglang-LenVM/scripts/convert_otel_2_perfetto.py:72-73 | insertion keeps a lane sorted and disjoint exactly when the new interval overlaps none |
| Lanes.StepLaid | sglang-LenVM/scripts/convert_otel_2_perfetto.py:95-120 | an event keeps the lanes of a pid in order exactly unless it is a point of that pid inside an interval of its sticky lane |
| Lanes.RunLaid | sglang-LenVM/scripts/convert_otel_2_perfetto.py:239-254 | for any arrival order over any rooms, the lanes of a pid end sorted and disjoint exactly when no such point arrived for it, whatever arrives for others |
| Lanes.PositiveRunLaid | sglang-LenVM/scripts/convert_otel_2_perfetto.py:239-254 | a pid whose spans have positive length always keeps its lanes sorted and pairwise disjoint |
| Lanes.HiddenPointBreaksLane | sglang-LenVM/scripts/convert_otel_2_perfetto.py:98-99 | a span, a point inside it and a later span inside it end up overlapping on one lane |
| LaneRules.LaneHolds | sglang-LenVM/scripts/convert_otel_2_perfetto.py:239-254 | at any moment a line of a pid holds exactly the spans of the pid that were given that line |
| LaneRules.LineRule | sglang-LenVM/scripts/convert_otel_2_perfetto.py:95-120 | on lanes in order: the line of the previous span of the pid in the same room if no earlier span on it meets the new one, or if the new one is a point; otherwise the lowest line on which none does |
| LaneRules.PositiveLineRule | sglang-LenVM/scripts/convert_otel_2_perfetto.py:95-120 | for positive spans the same with overlapping in place of meeting, with no condition on the lanes |
| LaneOptimality.Conservation | sglang-LenVM/scripts/convert_otel_2_perfetto.py:239-254 | the lanes of a pid hold exactly the spans that arrived for it |
| LaneOptimality.SpansOfAre | sglang-LenVM/scripts/convert_otel_2_perfetto.py:240-254 | the spans of a pid are its arrivals, none left out, in order |
| LaneOptimality.DepthAtMostLanes | sglang-LenVM/scripts/convert_otel_2_perfetto.py:95-120 | no instant has more positive spans of a pid alive than the pid has lanes |
| LaneOptimality.LaneCountOptimal | sglang-LenVM/scripts/convert_otel_2_perfetto.py:95-120 | positive spans of a pid that arrive in start order use exactly as many lanes as the greatest number alive at one instant, whatever arrives for other pids |
| LaneOptimality.TwoRoomsMayWaste | sglang-LenVM/scripts/convert_otel_2_perfetto.py:236-241 | two rooms can open three lanes for spans of which at most two are alive at once |
| LaneOptimality.SlotsAnnounced | sglang-LenVM/scripts/convert_otel_2_perfetto.py:104-119 | the slots announced for a pid are its lanes 1..n, each once, in order |
| SpanLayouts.SpanLayoutContainer.CheckOverlap | sglang-LenVM/scripts/convert_otel_2_perfetto.py:58-70 | on a sorted disjoint lane of positive spans the answer is whether any interval overlaps |
| SpanLayouts.SpanLayout.FindLine | sglang-LenVM/scripts/convert_otel_2_perfetto.py:95-120 | the line that `LaneRules.LineRule` speaks of, with graph, status and slot list changed as the pure layout step says |
| SpanLayouts.SpanLayout.Place | sglang-LenVM/scripts/convert_otel_2_perfetto.py:243-254 | choosing a lane and inserting is one step of the pure layout; containers are shared by nobody |
| SpanLayouts.GenerateSpanLayout | sglang-LenVM/scripts/convert_otel_2_perfetto.py:230-254 | the final layout and all tids are those of the run over the sorted rooms; it fails exactly when a room is empty |
| SpanLayouts.ProcessingOrder | sglang-LenVM/scripts/convert_otel_2_perfetto.py:231-238 | the rooms are processed by increasing first start and their spans by increasing start, none lost |
| SpanLayouts.ArrivalAt | sglang-LenVM/scripts/convert_otel_2_perfetto.py:240-254 | the events are the rooms in that order, each a start of the room and then its spans |
| SpanLayouts.TidAt | sglang-LenVM/scripts/convert_otel_2_perfetto.py:254 | the tid of span j of room i is the line that span was given on arrival |
| SpanLayouts.TidHolds | sglang-LenVM/scripts/convert_otel_2_perfetto.py:251-254 | in the final layout the lane named by the tid of a span holds that span |
| SpanLayouts.SingleRoomStartOrder | sglang-LenVM/scripts/convert_otel_2_perfetto.py:230-241 | a pid with spans in at most one of any list of rooms reaches the allocator in start order |
| SpanLayouts.SingleRoomOptimal | sglang-LenVM/scripts/convert_otel_2_perfetto.py:230-254 | for any list of rooms, a pid with positive spans in at most one of them gets exactly as many lanes as its greatest load |
| SpanLayouts.TotalLoadCounts | sglang-LenVM/scripts/convert_otel_2_perfetto.py:230-254 | the load at an instant is the number of spans of the pid running then, summed over the rooms |
| PassAtK.PassAtKExpected | inference/tradeoff/budget_eval.py:169-185 | both branches, quotient and product fallback, give the estimator for every n, c, k |
| PassAtK.ProductFallback | inference/tradeoff/sample_eval.py:759-767 | the product of (a-t)/(b-t) for t < k is C(a,k)/C(b,k) |
| PassAtK.FractionOfSubsets | inference/tradeoff/sample_eval.py:734-767 | the estimator is the fraction of the k-subsets of n samples that hold a correct one |
| PassAtK.Clamped | inference/tradeoff/budget_eval.py:169-185 | arguments out of range: 0 for no draw, sample or correct one, 1 when all are correct, k beyond n counts as n |
| PassAtK.Bounded | inference/tradeoff/budget_eval.py:169-185 | it lies in [0, 1] for all arguments |
| PassAtK.MonotoneInCorrect | inference/tradeoff/budget_eval.py:169-185 | it never falls when c grows |
| PassAtK.MonotoneInDraws | inference/tradeoff/budget_eval.py:169-185 | it never falls when k grows |
| PassAtK.PassAtOne | inference/tradeoff/sample_eval.py:734-767 | at k = 1 it is c/n |
| Sorting.SortedStable | inference/tradeoff/sample_eval.py:778-781 | sorting by choice number or start time keeps the order of equal keys |
| Responses.FilterThenGroup | inference/tradeoff/budget_eval.py:205-217 | filtering rows before grouping gives the groups of filtering after it |
| Budget.OneListOfQuestions | inference/tradeoff/sample_eval.py:769-775 | both ways of grouping and skipping give the same questions in the same order |
| Budget.BudgetMonotone | inference/tradeoff/budget_eval.py:258-293 | a larger budget lowers no average: expected pass@k, first-k, within-budget fraction, capped tokens |
| Budget.DrawsMonotone | inference/tradeoff/budget_eval.py:282-289 | neither kind of average pass@k falls when k grows |
| Budget.AllDrawn | inference/tradeoff/sample_eval.py:833-840 | once k covers the rows of a question both kinds of pass@k say whether any row is correct |
| Budget.BudgetCovered | inference/tradeoff/budget_eval.py:258-293 | once the budget covers every response each average is the unlimited one |
| Budget.CoveredExactly | inference/tradeoff/budget_eval.py:272-278 | the within-budget fraction is 1 exactly when the budget covers every response |
| Budget.QuestionTypesMatter | inference/tradeoff/sample_eval.py:785-790 | with a question type present there are judges for which no budget gives the unlimited pass@1 |
| Budget.Powers | inference/tradeoff/budget_eval.py:373-382 | the list is exactly the powers of two up to n in increasing order, or just 1 |
| Budget.DoublingList | inference/tradeoff/budget_eval.py:373-382 | it starts with 1, doubles at every step, and doubling its last value would pass n |
| Responses.CountedKept | inference/tradeoff/budget_eval.py:205-217 | the rows that count for an index are those of the file that have it, no error and a text, in their order |
| Fractions.QuestionsOfFile | inference/tradeoff/sample_eval.py:769-782 | one question for every index with a counted row, by increasing index; its rows by increasing choice number with ties in file order, its gold answer that of its first row in the file |
| Fractions.ExpectedIsShare | inference/tradeoff/sample_eval.py:784-840 | a question adds to pass@k the fraction of the k-subsets of its rows that hold a right one; right is said row by row |
| Fractions.FirstIsAmongK | inference/tradeoff/sample_eval.py:833-840 | it adds 1 to the first-k rate exactly when one of its first k rows is right |
| Fractions.WithinIsFraction | inference/tradeoff/budget_eval.py:261-278 | it adds to the within-budget fraction the fraction of its rows no longer than the budget |
| Fractions.CappedIsMean | inference/tradeoff/budget_eval.py:261-278 | it adds to the capped length the mean of its lengths, one over the budget counting as the budget |
| Evaluators.EvalBudget | inference/tradeoff/budget_eval.py:222-322 | for each k the mean over all questions of the fraction of k-subsets with a right row, and of the first-k test; the mean fraction within budget and mean capped length; whichever branch of the estimator runs |
| Evaluators.EvalFromResponses | inference/tradeoff/sample_eval.py:694-885 | the same two means for each k in the unlimited evaluator, with its default k list |
| Evaluators.ComputePassKsFromResponses | inference/tradeoff/sample_eval.py:917-936 | the k list is the powers of two up to the largest number of usable rows of an index |
| Evaluators.EvalStage | inference/tradeoff/sample_eval.py:1212-1219 | the eval stage reports the unlimited averages for the powers of two up to the largest number of rows |
| Evaluators.EvalBudgets | inference/tradeoff/budget_eval.py:400-413 | one report for each budget given, in increasing order, all over the same questions and powers of two, with the means of EvalBudget |
| Evaluators.ReportsRise | inference/tradeoff/budget_eval.py:411-412 | of two reports of one run the one with the larger budget is nowhere lower |
| Evaluators.CoveringBudget | inference/tradeoff/budget_eval.py:222-322 | a covering budget's summary equals the unlimited evaluator's: questions, k list and both kinds of pass@k |
| ResumeLog.ScanResponses | inference/tradeoff/sample_eval.py:1136-1155 | the skip set holds exactly the indices with a row, under the success policy one without error whose text has a character other than a space, tab or line break |
| ResumeLog.RunRequests | inference/tradeoff/sample_eval.py:538-681 | any interleaving: the file gains one block per index asked, none for skipped ones; row j of a response is its j-th text with choice number j and the gold answer; a failed request leaves one row without text; a full run covers the queue and only the last block of a cut run is partial |
| ResumeLog.WorkersExact | inference/tradeoff/sample_eval.py:681 | as many workers as allowed but not more than questions, and at least one |
| ResumeHistory.Campaign | inference/tradeoff/sample_eval.py:1130-1200 | any sequence of resumed runs, with any settings, interleavings and kills, loses no row, adds none to an index that had usable text, and is a history as below |
| ResumeHistory.NeverAgain | inference/tradeoff/sample_eval.py:1145-1155 | once a run left usable text for an index no later run queues or asks it |
| ResumeHistory.OneResponse | inference/tradeoff/sample_eval.py:577-673 | all usable rows of an index come from one response to one request of one run |
| ResumeHistory.UsableKeep | inference/tradeoff/sample_eval.py:1143-1148 | the usable rows of an index: its rows without error whose text shows a character |
| ResumeHistory.AskedOnce | inference/tradeoff/sample_eval.py:538-547 | a run that is not cut asks each remaining index exactly once |
| ResumeHistory.RetriedExactly | inference/tradeoff/sample_eval.py:1150-1155 | the next run retries an index exactly when its request failed or no text of its response has a character that is no space, tab or line break |
| ResumeHistory.CountedByEvaluators | inference/tradeoff/sample_eval.py:769-782 | the counted rows of an index are the rows of its question in every evaluation of the file, so their number is its n |
| ResumeHistory.CountedTwiceExactly | inference/tradeoff/sample_eval.py:1145-1155 | an index is counted from both the file and a run exactly when the policy is success, the file counts it with blank text only, and the run brought it a text |
| ResumeHistory.CountedTwiceAsked | inference/tradeoff/sample_eval.py:1145-1155 | the same for a run that was not cut, in terms of the response to the index |
| ResumeHistory.SeveralSources | inference/tradeoff/sample_eval.py:1136-1155 | over any history the counted rows of an index come from more than one source exactly when some run retried it after blank text only |
| ResumeHistory.OneCountedResponse | inference/tradeoff/sample_eval.py:577-673 | otherwise all counted rows of an index come from one response to one request of one run |
| ResumeHistory.BlankAnswersStay | inference/tradeoff/sample_eval.py:1150-1155 | whenever the file counts a considered index with blank text only, some full run leaves it counted twice |
| ResumeHistory.WrittenUntyped | inference/tradeoff/sample_eval.py:630-673 | no file of this program has a row with a question type, so both evaluators judge it alike |
| BlockExpansion.RenamedExactly | LlamaFactory-LenVM/scripts/llama_pro.py:36-37 | matching and replacing mean "is layer i" and "renumber to j" for all layers exactly for names without a second layer number |
| BlockExpansion.BlockExpansion | LlamaFactory-LenVM/scripts/llama_pro.py:53-94 | the two error cases, and the dictionary the nested loops build |
| BlockExpansion.SlotPlaces | LlamaFactory-LenVM/scripts/llama_pro.py:70-89 | layer i lands at i + i/split, followed by its zeroed copy when it closes a group |
| BlockExpansion.AnnouncedLayers | LlamaFactory-LenVM/scripts/llama_pro.py:52-56 | the configured layer count matches the layers written exactly for num_expand > 0 and a non-empty model |
| BlockExpansion.EveryEntry | LlamaFactory-LenVM/scripts/llama_pro.py:74-94 | every entry of the result: from which layer it was copied, whether zeroed, or left alone by the last loop |
| BlockExpansion.ZeroedExactly | LlamaFactory-LenVM/scripts/llama_pro.py:74-87 | in an inserted layer a tensor whose name contains down_proj or o_proj has the shape it had and zeros only; every other tensor of it, and all of the other layers, is that of the layer read |
| BlockExpansion.FaithfulUnlessStale | LlamaFactory-LenVM/scripts/llama_pro.py:92-94 | every output layer is its source layer or the zeroed copy of it exactly when the last loop has no stale key to copy |
| BlockExpansion.ExactLayers | LlamaFactory-LenVM/scripts/llama_pro.py:70-94 | exactly layers 0..num_layers+num_expand-1 have weights in the result |
| BlockExpansion.ZeroedIsIdentity | LlamaFactory-LenVM/scripts/llama_pro.py:83-84 | a residual layer with zeroed output projections and biases passes its input through |
| BlockExpansion.StackOf | LlamaFactory-LenVM/scripts/llama_pro.py:70-89 | output layers that are the input layers in order with zeroed copies between them compute the same stream |
| BlockExpansion.MeaningPreserved | LlamaFactory-LenVM/scripts/llama_pro.py:70-94 | the expanded model computes the same output as the original on every input |
| BlockExpansion.TwoNumbersBreak | LlamaFactory-LenVM/scripts/llama_pro.py:36-37 | in a one-layer model the inserted layer gets a weight exactly when its name has no second 0 |

## Left out

- Welford.RunningStats.GetStdSquared: states the square of `get_std`, because the square root is not a rational operation.
- Welford.Accumulate: models one of the fifteen metrics, all of which go through the same steps; predictions that are
  not finite numbers are not modelled.
- TemporalDifference.ScoreSample: models the gamma score only, not the relative, difference and length scores.
- BatchPipeline.Pipeline.ProcessBatchResult: whether a sample can be processed is arbitrary here; for the gamma score it
  is what `TemporalDifference.ScoreSample` answers.
- Reservoir.ReservoirSampler.Update: the quantile read from the buffer is not modelled.
- Downsample.LoadRecords: input that is a JSON array or spread over several lines is not modelled, JSON lines only.
- Evaluators.EvalFromResponses: the token usage, first and any accuracies and the per-question rows are not modelled.
- Evaluators.EvalBudget: the per-question rows are not modelled; they hold the same numbers before averaging.
- BlockExpansion.BlockExpansion: the order of the output dictionary and the split into shard files are not modelled.
- BlockExpansion.MeaningPreserved: a layer's attention and MLP may not depend on the layer's own number.
- ResumeLog.RunRequests: a process is killed between two appended lines, not in the middle of one.
- TaskPool.ProcessDataset: `process_sample` is an arbitrary result or none; its retries are not modelled.
- Floating point: rounding, overflow, `exp`, `log`, and the clamping by small constants. Values are exact reals.
- Write failures, which `save_batch` logs and drops, and resume scans that raise, after which every index is run again.
- The semaphore of the generator: the comment at `data_generation/data_generator/generator.py:65-66` says a slot is
  released during backoff, but the sleep at line 157 is inside the `async with`; neither is modelled.
- The events, contexts and word clouds written beside the scores.
- Spans that end before they start.
- Unicode white space: a blank text is one of spaces, tabs and line breaks.
- Tied word embeddings, whose head is removed from the weights before the expansion.
- HTTP, tokenizers, chat templates, progress bars, logging, command lines, plots, and JSON syntax.
