# Models of the benchmark harness

A Dafny model of the parts of this repository's benchmark harness that decide something: the
protocols that survive a crash, the objects that threads share, the statistics that a published
number rests on, and the scanners and searches that gate a publication. Each method follows the
loop or the object it stands for, and is proved against a specification whose own properties are
then proved over every input or every run.

| files | subject |
|---|---|
| `AtmProtocol`, `AtmSafety`, `AtmTheorems`, `AtmCheckpoint`, `AtmMeter`, `AtmAnswers`, `AtmRun` | the answer run: records, answers log and checkpoint, with a crash possible between any two writes |
| `IndexResume`, `ChunkIds` | indexing documents in batches, and finishing an interrupted index |
| `Publish` | replacing published files, with rollback |
| `SpendCap`, `Completion`, `SharedClient` | the spend ceiling and the shared completion client under any interleaving of threads |
| `ReadmePage` | the page that shows translations that arrive late |
| `Binomial`, `PairedTest`, `Holm` | the exact test, its paired cells, and the correction for many tests |
| `Ordering`, `Ranking`, `Correlation`, `Spacing`, `TriggerCut`, `ChunkCache` | ranks, correlation, snapshot spacing, the trigger cut and the vector cache of the drift measurement |
| `MonetaryScan` | the scan of a possibly cyclic payload for prose about money |
| `EvidenceGraph`, `EvidenceBudget` | one-hop expansion with its controls, and cutting evidence to a token budget |
| `ClaimGate` | binding citation markers to published numbers |
| `Postdating`, `UtteranceDates` | whether a turn was said after its scope's reference instant |
| `Options`, `Sets`, `Fractions`, `WhiteSpace` | a value that may be absent; sizes of finite sets; products and quotients; what each language strips |

Three kinds of model appear. Objects whose methods update fields are classes (`AtmRun.Runner`,
`IndexResume.Index`, `Publish.Artifact`, `SpendCap.Meter`, `SharedClient.Client`,
`ChunkCache.ChunkEmbedder`, `ReadmePage.Script`). Anything that can be interrupted or interleaved
is also a step function over events, and its theorems are about every list of events. Numbers are
exact integers and reals.

## Where the code and its documentation part

The model keeps what the code does. In each case a lemma says exactly when the property one would
expect holds, and most come with an input that shows where it fails.

- **One call's overshoot** (`capped_run.py:15-16`). The ceiling is documented to be passed by at
  most one call. With `n` threads the overshoot is bounded by `n` calls and every amount below that
  bound is reached, so the documented bound holds if and only if there is at most one thread.
- **Resuming a run** (`atm_full_run.py:104-125`). A provider that reports a negative token count
  leaves a record that no restart reads; over the program's own files a restart works if and only if
  no record holds one.
- **Repeated question ids** are not refused when questions are loaded, and a run over them can
  never finish. A run with nothing pending finishes if and only if the ids are distinct.
- **The usage checkpoint** (`atm_full_run.py:560-571`, named in the manifest at 624). A run that dies
  after its last record and before the checkpoint is finished by the next run without writing one.
  A finished run's checkpoint says the final totals if and only if the last record written was
  followed by its checkpoint.
- **Evenly spaced items** (`calibration_drift.py:134-151`). In exact arithmetic the removal of
  duplicates never removes anything, and asking for fewer than two items drops the first item,
  although both ends are said to be always included.
- **The trigger cut** (`calibration_drift.py:612-613`). The highest cut that clears the recall
  target is described as the most precise one. Over every list of points this holds if and only if
  the target is at least 1; for each lower target there are points for which a lower cut clears it
  as well and is more precise. The target in use is 0.90.
- **The usage meter** (`llm.py:510-523`). Prices and counts are converted inside the lock, between
  the stores. A price that does not convert loses the call and its tokens, and a count that does not
  convert leaves the call without them in every later report. At rest every charge and every report
  is whole if and only if the price and the counts of every response received convert.
- **The vector cache** (`calibration_drift.py:317-340`). The count of unsaved vectors is raised only
  after a whole block, so a flush after a failed block saves everything if and only if something
  else was counted or nothing was unsaved.
- **The exact branch of the paired test** reports the first count as its statistic, so swapping the
  arms changes the report while the p-value stays; the reports are equal if and only if the counts
  are equal or the other branch is taken.
- **Touching tokens** (`claim_gate.py:345-362`). In `1,2345` two number tokens touch and both bind
  one marker. Two numbers share a marker if and only if they touch and are the last before it.
- **A language chosen before the page has loaded** (`site/readme.js:319-376`) caches an empty
  translation, and every later choice of that language shows "undefined" everywhere. A cached
  language shows a value at every node if and only if it was not cached that early, and each of those
  values came from a batch that was translated. The limit on batches is
  implied by the limit on nodes and can never be the one that refuses.
- **A limit on documents** (`enterprise_rag.py:181-192`) is kept if and only if it is at least one,
  or nothing is there to load: the count is compared after a document is given out.
- **Publishing** (`h2h_artifact.py:329-371`). An interrupt between a rename and the line that
  records it is not rolled back, unless that operation changed nothing.

## Model

| member | source | states |
|---|---|---|
| AtmSafety.RunKeeps | benchmarks/atm_full_run.py:379-593 | the invariant tying records, log, retrieval rows, checkpoint and memory holds after every history of starts, healing, planning, acceptances in any order and crashes |
| AtmSafety.StepKeeps | benchmarks/atm_full_run.py:379-593 | each single step keeps that invariant |
| AtmSafety.LoadKeeps | benchmarks/atm_full_run.py:379-387 | a restart over any directory the program left either heals or refuses a damaged record, and keeps the invariant |
| AtmSafety.RetotalIsTotal | benchmarks/atm_full_run.py:410-418 | the usage rebuilt by a restart is the total over the records, whatever order they are listed in; AtmMeter says what that total is |
| AtmTheorems.ResumeSafety | benchmarks/atm_full_run.py:379-452 | every log row has a record with the same answer, no id is logged or retrieved twice, and the orphan, disagreement, duplicate and count refusals never fire on state the program produced |
| AtmTheorems.RestartHealsExactly | benchmarks/atm_full_run.py:104-125 | a restart goes on to heal the log if and only if no record holds a negative token count |
| AtmTheorems.NegativeUsageBlocksRestart | benchmarks/atm_full_run.py:114-119 | any directory that holds one such record is refused at every restart, whatever else it holds |
| AtmTheorems.NegativeUsageIsReached | benchmarks/atm_full_run.py:531-552 | the history that leaves such a directory: one question, an answer with a negative count, a crash after its record |
| AtmTheorems.SizeByPosition | benchmarks/atm_full_run.py:551-552 | records by file and records by id are equally many |
| AtmTheorems.AcceptanceConserves | benchmarks/atm_full_run.py:526-559 | between acceptances the meter is the total over the records on disk, log and records are equally many, and the checkpoint written at the end of an acceptance says exactly this; AtmMeter gives the total field by field |
| AtmMeter.MeterIsTheSums | benchmarks/atm_full_run.py:415-569 | over every history, between acceptances calls, prompt, completion and total tokens are each the sum of that field over the records on disk, and retries the number of records that retried |
| AtmMeter.CheckpointIsTheSums | benchmarks/atm_full_run.py:531-571 | a checkpoint that is not owed says the number of records on disk and those same sums |
| AtmMeter.LogLoadsExactly | benchmarks/atm_full_run.py:89-101 | the log loads if and only if every row names its id, and then gives the last answer of each id |
| AtmMeter.RecordsLoadExactly | benchmarks/atm_full_run.py:104-125 | the records load if and only if each has an id of its own, counts that are not negative and a visible answer; each is then found by its id, and otherwise the first that does not load decides the refusal |
| AtmMeter.PendingIsRetrieved | benchmarks/atm_full_run.py:422-452 | every question that waits for an answer has its evidence on file |
| AtmAnswers.AcceptedIsPublished | benchmarks/atm_full_run.py:379-593 | once an answer's record is written, after any further history of steps, crashes and restarts the record holds that answer, so does every log row of its question, and so does the finished log at the question's place |
| AtmAnswers.RecordsStay | benchmarks/atm_full_run.py:379-593 | a record on disk is never lost and never changed |
| AtmAnswers.RecordsWereAccepted | benchmarks/atm_full_run.py:526-552 | every record on disk was accepted as it is, while its question waited |
| AtmCheckpoint.CheckpointIsExact | benchmarks/atm_full_run.py:531-571 | over every history the checkpoint on disk says the count and totals of the records, unless a record is owed one, and then it counts too few or is missing |
| AtmCheckpoint.FinishedCheckpointExactly | benchmarks/atm_full_run.py:560-571 | a finished run's checkpoint says the final count and totals if and only if the last record written was followed by its checkpoint |
| AtmCheckpoint.FinishedWithoutCheckpoint | benchmarks/atm_full_run.py:552-571 | a history of one question that finishes with no checkpoint at all |
| AtmTheorems.FinishedIsComplete | benchmarks/atm_full_run.py:582-593 | a finished run holds exactly one record for each question, carrying its id, and nothing else, and one log row for each question, in question order |
| AtmTheorems.CountCheckExact | benchmarks/atm_full_run.py:582-586 | with nothing pending the count check passes if and only if the question ids are distinct |
| AtmTheorems.RepeatedIdsNeverFinish | benchmarks/atm_full_run.py:422-452 | no history over repeated ids reaches the end |
| AtmTheorems.FinishesExactlyWhenDistinct | benchmarks/atm_full_run.py:582-593 | from any reachable state with nothing pending, finishing succeeds if and only if the ids are distinct |
| AtmTheorems.RepeatedRecordsRefuseRestart | benchmarks/atm_full_run.py:111-113 | two records of one id make every restart refuse |
| AtmRun.Runner.ReadLog | benchmarks/atm_full_run.py:89-101 | loading the log gives the last answer of each id, or refuses a row without an id |
| AtmRun.Runner.ReadRecords | benchmarks/atm_full_run.py:104-125 | loading the records gives one record an id, or the first refusal in listing order |
| AtmRun.Runner.SumRecords | benchmarks/atm_full_run.py:415-418 | the usage meter rebuilt from the records as listed, whose fields AtmMeter gives |
| AtmRun.Runner.Start | benchmarks/atm_full_run.py:379-387 | the object takes the protocol's start step, so every theorem about histories is about it |
| AtmRun.Runner.HealLog | benchmarks/atm_full_run.py:388-395 | the loop is a run of healing steps only, each append a step of its own, and ends at planning or at the disagreement refusal |
| AtmRun.Runner.PlanQuestions | benchmarks/atm_full_run.py:422-452 | the loop is a run of planning steps only, and ends ready to answer |
| AtmRun.Runner.AcceptAnswer | benchmarks/atm_full_run.py:531-571 | one acceptance is exactly the three writes record, log row, checkpoint, in this order |
| AtmRun.Runner.FinishRun | benchmarks/atm_full_run.py:582-593 | the count check and the log rewritten in question order are the protocol's last step |
| AtmRun.Runner.RunToEnd | benchmarks/atm_full_run.py:379-593 | from every state the files can be in, over distinct ids and records without a negative count, one run that is not interrupted and can answer every question completes the benchmark |
| AtmRun.Runner.Die | benchmarks/atm_full_run.py:379-380 | a crash keeps the files and nothing else |
| IndexResume.Index.WriteBatch | benchmarks/enterprise_rag.py:457-459 | one batch is one atomic change of the store |
| IndexResume.Index.IndexDocuments | benchmarks/enterprise_rag.py:315-354 | the store; indexed and skipped are the numbers of documents whose id is not, and is, in the set to skip; the exact sequence of states committed, each between two documents |
| IndexResume.Index.AddDocuments | benchmarks/enterprise_rag.py:334-354 | the same counts for the loop, which commits at each document at which the batch has reached its size, and once more for what is left |
| IndexResume.IndexedExactly | benchmarks/enterprise_rag.py:334-354 | the store row by row: each part of each document that is not skipped stands under its own chunk id, and every other key holds what it held |
| IndexResume.FlushesAreDue | benchmarks/enterprise_rag.py:339-353 | what waits after a document is less than a batch, and a flush comes right after the document that completes one |
| IndexResume.GoneThroughIsWhole | benchmarks/enterprise_rag.py:334-354 | every document the loop has passed is complete in the store |
| IndexResume.CrashLeavesWholeDocuments | benchmarks/enterprise_rag.py:334-354 | after a crash at any moment of a run, skipping or not, each source that is present is complete |
| IndexResume.SkippingLosesNothing | benchmarks/enterprise_rag.py:330-338 | skipping the sources already present ends in the store of a run that skips nothing |
| IndexResume.CrashKeepsTheGoal | benchmarks/enterprise_rag.py:334-354 | such a crash does not change which full index the store leads to |
| IndexResume.CommittedIsLeftBy | benchmarks/enterprise_rag.py:330-354 | every state the loop commits is one the resume theorem speaks of |
| IndexResume.ResumeReachesFullIndex | benchmarks/enterprise_rag.py:315-354 | any number of interrupted runs, each with or without skipping, and one run to the end with or without skipping, leave exactly the store of one uninterrupted run |
| IndexResume.LoadDocuments | benchmarks/enterprise_rag.py:181-192 | the first document of each id in order, cut by the limit as the loop cuts it |
| IndexResume.FirstsExactly | benchmarks/enterprise_rag.py:181-192 | the documents given out are exactly those with no earlier one of their id |
| IndexResume.TakenExactly | benchmarks/enterprise_rag.py:190-192 | the limit lets through the first documents, one at least |
| IndexResume.LoadedIdsAreDistinct | benchmarks/enterprise_rag.py:181-192 | ids given out are distinct and none is lost, which the resume theorems rest on |
| IndexResume.LimitKeptExactly | benchmarks/enterprise_rag.py:190-192 | the limit is kept if and only if it is at least one or there is nothing to load |
| ChunkIds.ChunkIdInjective | benchmarks/enterprise_rag.py:291-312 | document id and position are read back from a chunk id, even when the document id holds the separator |
| ChunkIds.ChunkIdReads | benchmarks/enterprise_rag.py:291-312 | a chunk id is the document's id, the separator and the position in at least four digits |
| Publish.Artifact.WriteArtifact | benchmarks/h2h_artifact.py:320-371 | success puts each payload's own data at its path, with the mode of the file that stood there or the fresh one, and removes every other outcome vector; an operation that raises restores the directory as it was; an interrupt before the bookkeeping leaves exactly that one operation |
| Publish.Artifact.HandOver | benchmarks/h2h_artifact.py:343-371 | the loop over the operations and its rollback, for any operations on distinct paths |
| Publish.OpTakesEffect | benchmarks/h2h_artifact.py:343-354 | what operation k alone does: the k-th payload in place, or a stale vector gone |
| Publish.Artifact.RollBack | benchmarks/h2h_artifact.py:356-371 | undoing the recorded operations in reverse restores content and absence alike |
| Publish.HandoverIsDistinct | benchmarks/h2h_artifact.py:329-354 | no path is handed over twice, which undoing rests on |
| Publish.RolledBack | benchmarks/h2h_artifact.py:356-371 | what the directory is after a rollback, for either kind of failure |
| Publish.PublishedExactly | benchmarks/h2h_artifact.py:329-354 | on success each payload's path holds its data and the mode said above, the outcome vectors on disk are exactly those of this build, and every other file is untouched |
| Publish.SlippedInterruptExactly | benchmarks/h2h_artifact.py:343-354 | an interrupt before the bookkeeping is harmless if and only if the operation changed nothing |
| SpendCap.SpendIsBounded | benchmarks/capped_run.py:44-61 | over every interleaving the spend stays below the ceiling by one call's cost for each thread not in flight, so below ceiling plus threads times cost |
| SpendCap.CapIsFinal | benchmarks/capped_run.py:44-53 | once the spend reaches the ceiling no check in any continuation lets a call through |
| SpendCap.BoundIsReached | benchmarks/capped_run.py:44-61 | any amount below that bound is exceeded by some run, so the bound is the best one |
| SpendCap.OneCallOvershootExactly | benchmarks/capped_run.py:15-16 | the documented overshoot of one call holds if and only if there is at most one thread |
| SpendCap.Meter.Admit | benchmarks/capped_run.py:46-50 | the check admits exactly below the ceiling, as a step of the interleaving |
| SpendCap.Meter.Settle | benchmarks/capped_run.py:51-60 | a response without usage is charged nothing, and one with usage its prompt tokens at the price in and its completion tokens at the price out, as a step of the interleaving |
| SpendCap.Make | benchmarks/capped_run.py:35-42 | which ceilings and prices are refused, and that a meter made holds the prices for one token of the prices given for a million |
| SpendCap.FirstCall | benchmarks/capped_run.py:35-60 | from the prices given to the charge: the first call goes through and costs prompt tokens times the price in plus completion tokens times the price out, over a million |
| Completion.AssistantText | recall/_chat_content.py:26-79 | the text read is the readable blocks joined in order, or nothing |
| Completion.JoinedInOrder | recall/_chat_content.py:26-79 | the text of two listings of blocks is the one after the other, a readable block's is its own and an unreadable one's is empty |
| Completion.StripIsEmptyExactly | benchmarks/llm.py:584-585 | stripping leaves nothing if and only if every character is white space |
| Completion.JoinedIsBlankExactly | benchmarks/llm.py:584-585 | blocks are unusable if and only if none holds a visible character |
| Completion.ReadBody | benchmarks/llm.py:530-594 | each response ends in exactly one outcome, with the condition for no choices, truncated and empty each stated on the response |
| Completion.AnswerExactly | benchmarks/llm.py:530-594 | a text is returned if and only if the first choice was finished and carries that text, unstripped, with a visible character |
| Completion.Complete | benchmarks/llm.py:455-461 | every attempt before the last was a transient error or a response without a completion; an answer is the first one found; a failure is anything else or the last attempt allowed |
| SharedClient.TotalIsTheSum | benchmarks/llm.py:509-533 | which responses each field counts, whatever their bodies make them end in: latency all, calls those whose price converts, prompt tokens those whose prompt count converts as well, completion tokens those that convert throughout; the cost is known exactly when some response states a price |
| SharedClient.ChargeExactly | benchmarks/llm.py:509-533 | every field after one response's charge, from the fields of the response; the price is the first entry there is among the three plain ones and then the two of the cost object |
| SharedClient.CallsAreExact | benchmarks/llm.py:518-519 | the calls counted are the responses that carry usage if and only if every price converts |
| SharedClient.ReachConverts | benchmarks/llm.py:510-523 | a charge makes all six stores if and only if the price and both counts convert, and otherwise stops at the first conversion that raises |
| SharedClient.StepKeepsClient | benchmarks/llm.py:489-508 | each step keeps the client lock's invariant |
| SharedClient.OneClient | benchmarks/llm.py:489-508 | for any threads and interleaving at most one client is built, and every read outside the lock sees it, also when building it fails at first |
| SharedClient.StepKeepsMeter | benchmarks/llm.py:509-523 | each load, each store and each conversion that raises and releases the lock keeps the meter's invariant |
| SharedClient.MeterCountsEveryResponse | benchmarks/llm.py:509-523 | whenever no response is under way, the meter is the total of the charges of exactly the responses received, each charged once and as far as it converts |
| SharedClient.NothingIsLostExactly | benchmarks/llm.py:509-523 | over every interleaving, at rest, all charges and all reports are whole if and only if the price and counts of every response received convert; and the calls are exact if and only if every price does |
| SharedClient.ReportsAreWholeExactly | benchmarks/llm.py:436-453 | each report is the total of the charges that had ended, and it is whole if and only if those responses convert |
| SharedClient.HalfChargedReport | benchmarks/llm.py:509-523 | every response that does not convert has a run that ends in a report with only its first stores |
| SharedClient.CompletionIsLost | benchmarks/llm.py:519-523 | a prompt count that does not convert: the call is counted and seven completion tokens are not |
| SharedClient.CallIsLost | benchmarks/llm.py:515-519 | a price that does not convert: neither the call nor its tokens are counted |
| SharedClient.Client.CompleteOnce | benchmarks/llm.py:463-594 | one call builds at most one client, charges its response as far as it converts, and classifies it exactly when the charge went through |
| SharedClient.Client.Record | benchmarks/llm.py:510-523 | the updates under the lock make the stores up to the first conversion that raises |
| SharedClient.Client.ProviderMetadata | benchmarks/llm.py:440-453 | the reported tokens, latency and dollars are the sums over what each response contributed, the total is prompt plus completion, and the revision is the last model named |
| ReadmePage.Gather | site/readme.js:270-302 | batches that fail keep their source, those that succeed are replaced, and the failures counted are the batches that failed |
| ReadmePage.GatheredInOrder | site/readme.js:270-302 | value i of batch k stands at node k times the batch size plus i |
| ReadmePage.GatheredMatchesNodes | site/readme.js:270-302 | there are as many values as nodes |
| ReadmePage.BatchesExactly | site/readme.js:270-302 | the batches are the nodes by 24, none empty, only the last short, none missing |
| ReadmePage.DressExactly | site/readme.js:304-311 | a node's white space at either end is kept and the text between is replaced |
| ReadmePage.SqueezeExactly | site/readme.js:154-156 | word by word, a run of white space becomes one blank |
| ReadmePage.FailedNodeKeepsTextExactly | site/readme.js:154-156 | a node of a failed batch keeps its text if and only if every white-space character inside it is a blank and no white space follows another |
| ReadmePage.SqueezeKeepsExactly | site/readme.js:154-156 | which texts the replacement of white-space runs leaves as they are |
| ReadmePage.FailedNodeLosesNewline | site/readme.js:154-156 | two words on two lines come back changed from a failed batch |
| ReadmePage.BatchLimitIsImplied | site/readme.js:270-279 | 512 nodes never exceed 22 batches, and the batch limit alone would allow 528 nodes |
| ReadmePage.NewestSelectionOnly | site/readme.js:319-376 | under any interleaving what is shown belongs to the newest selection and to the nodes of the latest restore |
| ReadmePage.FinishingTask | site/readme.js:340-370 | a stale task changes nothing shown; the newest one, made from the cleaned text of the nodes still on the page, applies its own values to them, or leaves English when every batch failed |
| ReadmePage.ChoiceExactly | site/readme.js:319-345 | what choosing a language does at once to every part of the page: English and cached languages start nothing, any other shows the English text and starts one task over the new nodes |
| ReadmePage.LoadExactly | site/readme.js:392-407 | the page loads once: its nodes replace what was there and the language asked for is chosen over them |
| ReadmePage.FailureExactly | site/readme.js:366-375 | a task that fails turns the page back to English if it is the newest, and changes nothing shown otherwise |
| ReadmePage.CacheIsSized | site/readme.js:319-376 | a cached translation has one value for each node unless it was cached before the page loaded, when it has none |
| ReadmePage.CachedLanguageExactly | site/readme.js:328-340 | choosing a cached language shows its values if and only if it was not cached early, and "undefined" otherwise |
| ReadmePage.EarlySelectionShowsUndefined | site/readme.js:392-407 | a run that shows "undefined" at every node |
| ReadmePage.LateSelectionsCacheWhole | site/readme.js:319-376 | if no language is chosen before loading, each cached language has one value for every node |
| ReadmePage.StepCachesExactly | site/readme.js:337-346 | a task whose batches were all translated sets its language in the cache, even when it is stale; no other event touches the cache |
| ReadmePage.CacheIsBatchComplete | site/readme.js:337-346 | over any interleaving each cached language is exactly what one task for it gathered with every batch translated |
| ReadmePage.CachedValuesAreTranslations | site/readme.js:270-302 | so every cached value is the one a provider gave for that node, and a failed batch's English is never cached |
| ReadmePage.Script.ApplyTranslations | site/readme.js:304-311 | each node keeps its own white space around its translation |
| ReadmePage.Script.SelectLanguage | site/readme.js:319-345 | a selection is one step of the protocol |
| ReadmePage.Script.Settle | site/readme.js:345-370 | the end of a task is one step of the protocol |
| Binomial.CombIsFactorialQuotient | benchmarks/analyze.py:82-86 | the coefficients are quotients of factorials |
| Binomial.RowMass | benchmarks/analyze.py:82-86 | a row of coefficients sums to a power of two |
| Binomial.TwoSidedIsExtremeProbability | benchmarks/analyze.py:71-86 | the clamped doubled tail is the probability of a result at least as far from the centre |
| Binomial.ClampOnlyAtCentre | benchmarks/analyze.py:86 | the clamp is needed if and only if the result is exactly central |
| Binomial.TwoSidedShrinksWithDistance | benchmarks/analyze.py:71-86 | it lies in (0, 1] and never grows with the distance from the centre |
| Binomial.TwoSidedSymmetric | benchmarks/analyze.py:71-86 | it is the same for s and n - s |
| PairedTest.ByQuestionId | benchmarks/analyze.py:109-121 | outcomes by question id, or the refusal of a repeated one |
| PairedTest.IndexExactly | benchmarks/analyze.py:109-121 | indexing succeeds if and only if the ids are distinct, and then holds every outcome |
| PairedTest.IndexIgnoresOrder | benchmarks/analyze.py:109-121 | the index does not depend on the order of the outcomes |
| PairedTest.PairedCells | benchmarks/analyze.py:124-186 | the loop's four counters are the sizes of four sets of questions, or the first refusal |
| PairedTest.CellsCountOnce | benchmarks/analyze.py:155-186 | each selected question is in one cell, and the cells add up to each arm's own count of good outcomes |
| PairedTest.MarginIsDiscordance | benchmarks/h2h_artifact.py:154-160 | each accuracy is correct answerable questions over answerable ones, and the difference of the two is the difference of the discordant cells over the number of pairs |
| PairedTest.McNemarFits | benchmarks/analyze.py:71-106 | the report of a table: 1 on no discordant pairs; below 25 the probability of a split at least as uneven, and the first arm's own cell; from 25 on the corrected statistic and its upper tail |
| PairedTest.PairedReport | benchmarks/analyze.py:109-186 | from two lists of outcomes: which refusal exactly when, the four cells on either axis as sizes of sets, and the report of that table |
| PairedTest.McNemarSwaps | benchmarks/analyze.py:98-106 | swapping the counts keeps the p-value, and the whole report if and only if the counts are equal or the corrected branch is taken |
| PairedTest.SwappingArms | benchmarks/analyze.py:155-186 | swapping the arms swaps the discordant cells and keeps the p-value |
| PairedTest.LabelCheckIsNeeded | benchmarks/analyze.py:140-150 | without the label check swapping the arms could lose a pair |
| PairedTest.PairedTestIgnoresOrder | benchmarks/analyze.py:155-186 | the result does not depend on the order of either file |
| PairedTest.VectorDeterminesCells | benchmarks/h2h_artifact.py:374-392 | counting the written outcome vector gives the same four cells, which are the answerable questions by who was correct |
| Holm.HolmAdjust | benchmarks/h2h_artifact.py:199-207 | for each p-value the least number from 0 to 1 that is at least, or capped by 1, every p-value not above it times the number of hypotheses not below that one, however ties are sorted |
| Holm.AdjustedIsUnique | benchmarks/h2h_artifact.py:199-207 | that description fits one number only, the one computed |
| Holm.RunningIsLargest | benchmarks/h2h_artifact.py:203-206 | the running maximum along a sorted order is that largest value |
| Holm.AdjustedDecidesStepDown | benchmarks/h2h_artifact.py:199-207 | an adjusted value is at most alpha if and only if every p-value up to its place in sorted order, times the hypotheses left, is |
| Holm.AdjustedBetween | benchmarks/h2h_artifact.py:199-207 | it lies between p and min(1, m p) |
| Holm.AdjustedKeepsOrder | benchmarks/h2h_artifact.py:199-207 | it keeps the order of the p-values and agrees on ties |
| Holm.AdjustedPermutes | benchmarks/h2h_artifact.py:199-207 | it commutes with every permutation |
| Ordering.SortIndices | benchmarks/calibration_drift.py:387 | a stable sort of positions: each once, keys ascending, equal keys in order of position |
| Ranking.Ranks | benchmarks/calibration_drift.py:386-398 | the run-averaging loop gives each value the number of smaller values plus half of one more than the number of equal ones |
| Ranking.RanksSum | benchmarks/calibration_drift.py:386-398 | the ranks sum to n (n + 1) / 2 whatever the ties |
| Ranking.RankIsMonotone | benchmarks/calibration_drift.py:386-398 | ranks are ordered exactly as the values are |
| Ranking.RanksIgnoreScale | benchmarks/calibration_drift.py:386-398 | order-preserving changes of the values keep the ranks |
| Ranking.RanksReverse | benchmarks/calibration_drift.py:386-398 | reversing the order reflects the ranks |
| Ranking.RanksPermute | benchmarks/calibration_drift.py:386-398 | ranks commute with permutation |
| Correlation.Spearman | benchmarks/calibration_drift.py:382-408 | the method computes numerator and squared denominator of the correlation of the ranks, or not-a-number |
| Correlation.SpearmanExactly | benchmarks/calibration_drift.py:402-408 | numerator and denominator are the sums of products of how far the ranks are from (n + 1) / 2 |
| Correlation.CauchySchwarz | benchmarks/calibration_drift.py:402-408 | the squared product sum is at most the product of the sums of squares |
| Correlation.SpearmanIsBounded | benchmarks/calibration_drift.py:402-408 | the coefficient lies in [-1, 1] |
| Correlation.NotANumberExactly | benchmarks/calibration_drift.py:382-408 | it is not a number if and only if there are fewer than three points or one side is all tied |
| Correlation.SpearmanIgnoresScale | benchmarks/calibration_drift.py:382-408 | strictly increasing maps of either side keep it |
| Correlation.SpearmanExtremes | benchmarks/calibration_drift.py:382-408 | it is 1 for equal order and -1 for opposite order |
| Spacing.RoundsToNearest | benchmarks/calibration_drift.py:147-150 | rounding goes to a nearest integer, and to the even one at a half |
| Spacing.PositionsAreExact | benchmarks/calibration_drift.py:134-151 | the chosen positions are strictly increasing from first to last, so removing duplicates removes nothing |
| Spacing.SelectionExactly | benchmarks/calibration_drift.py:134-151 | the i-th item chosen stands at the place nearest to i steps of (length - 1) / (count - 1), the even one of two |
| Spacing.SelectionSize | benchmarks/calibration_drift.py:134-151 | how many items are chosen, that the last is always one, and that the first is dropped exactly when fewer than two are asked for out of more than one |
| Spacing.SnapshotsOnlyGrow | benchmarks/calibration_drift.py:239-261 | each snapshot strictly extends the one before and the last holds every file |
| Spacing.SnapshotsAreCuts | benchmarks/calibration_drift.py:239-261 | every snapshot is the files up to its cut, and where the cuts lie |
| TriggerCut.TriggerAnalysis | benchmarks/calibration_drift.py:568-621 | by the points alone: the cut reported is a drift above zero that some point shows, its counts are those of the points that reach it, its recall clears the target and no higher drift's does; none is reported if and only if there is no positive or the target is above one |
| TriggerCut.ClearingIsDownward | benchmarks/calibration_drift.py:604-611 | recall never grows with the cut |
| TriggerCut.LosslessCutIsMostPrecise | benchmarks/calibration_drift.py:612-613 | a cut that keeps full recall is the most precise of all lower ones |
| TriggerCut.MostPreciseExactly | benchmarks/calibration_drift.py:612-613 | the cut reported is at least as precise as every observed cut that clears the target, over every list of points, if and only if the target is at least 1 |
| TriggerCut.LessPrecise | benchmarks/calibration_drift.py:612-613 | for each target below 1, points for which the reported cut is less precise than a lower one that clears the target |
| ChunkCache.ChunkEmbedder.FindMissing | benchmarks/calibration_drift.py:307-311 | the texts to send are those asked for that the cache lacks, in order of first occurrence |
| ChunkCache.MissingIsNew | benchmarks/calibration_drift.py:307-311 | they are pairwise different, new, and with the cache cover every text asked for |
| ChunkCache.ChunkEmbedder.Embed | benchmarks/calibration_drift.py:304-336 | one row for each text, in order, each the vector of its text; exactly the missing texts are sent; an empty request is refused; after any number of failed calls the vectors at risk are at most those counted and 255 for each failure since the file was written |
| ChunkCache.ChunkEmbedder.EmbedPending | benchmarks/calibration_drift.py:312-335 | over all blocks, and after earlier failures, no text is sent twice in a session and fewer than 2000 vectors are counted as unsaved between blocks |
| ChunkCache.ChunkEmbedder.Flush | benchmarks/calibration_drift.py:338-347 | afterwards the file is the cache if and only if something was counted as unsaved or nothing was unsaved |
| ChunkCache.FailedBlockIsNotSaved | benchmarks/calibration_drift.py:317-340 | a session whose only block fails after one vector: the flush leaves the file empty |
| MonetaryScan.ScanFindsWalk | benchmarks/artifact_contract.py:166-191 | whenever the scan says yes there is a path to a matching string |
| MonetaryScan.WalkIsFound | benchmarks/artifact_contract.py:166-191 | a path to a matching string is found although only the ancestors on the current path are pruned |
| MonetaryScan.ScanIsReachability | benchmarks/artifact_contract.py:166-191 | on every finite graph, cyclic or not, the scan is exactly reachability of a matching string |
| MonetaryScan.AuditIsSkippedExactly | benchmarks/artifact_contract.py:194-222 | unreadable metadata is accepted if and only if the claims are an empty list and no matching string is reachable outside the root `outcomes` |
| MonetaryScan.AuditExactly | benchmarks/artifact_contract.py:194-222 | exactly when each verdict is given, from the declaration, what the graph reaches and the metadata |
| MonetaryScan.ExemptionIsOfTheRootKey | benchmarks/artifact_contract.py:207-222 | a value exempt under the root key is not exempt when another root key also leads to it |
| EvidenceBudget.TruncateEvidence | benchmarks/evidence_tokens.py:90-123 | exactly which requests are refused; whatever is returned fits the budget between prefix and suffix, with no assumption that token counts grow with the text; a context that fits is returned whole, and one that does not is cut where one token more would not fit |
| EvidenceBudget.BoundaryIsLongest | benchmarks/evidence_tokens.py:103-123 | where fitting is monotone the search ends at the longest fitting prefix and nowhere else |
| EvidenceGraph.ExpandedIds | benchmarks/evidence_graph_pilot.py:156-214 | the loops return the trusted part of the declarative candidate set in order of best score, the four counts agree with it, and accepted plus rejected is discovered |
| EvidenceGraph.ExpansionExactly | benchmarks/evidence_graph_pilot.py:156-214 | the expansion off the mentions, diagnostics and relations: which chunks are accepted, which comes before which, and each count as the size of a set |
| EvidenceGraph.RankedIsUnique | benchmarks/evidence_graph_pilot.py:199-206 | scores and ids leave one possible order |
| EvidenceGraph.ExpansionIgnoresRelationOrder | benchmarks/evidence_graph_pilot.py:156-214 | reordering the relations changes none of the four results |
| EvidenceGraph.RemovedControlExpandsNothing | benchmarks/evidence_graph_eval.py:111-117 | without relations nothing is expanded |
| EvidenceGraph.Shuffle | benchmarks/evidence_graph_eval.py:118-134 | the shuffle in place permutes, whatever is drawn |
| EvidenceGraph.ShuffledControl | benchmarks/evidence_graph_eval.py:118-134 | only objects move, and their multiset stays |
| EvidenceGraph.ShuffleKeepsDegrees | benchmarks/evidence_graph_eval.py:118-134 | every entity keeps its in-degree and its out-degree |
| ClaimGate.SubKeepsOffsets | benchmarks/claim_gate.py:284-289 | replacing matches by blanks keeps the length and every character outside them at its offset |
| ClaimGate.Mask | benchmarks/claim_gate.py:284-314 | the whole sequence of patterns, each over the result of the one before, keeps the length and every offset it does not blank |
| ClaimGate.MaskIsExact | benchmarks/claim_gate.py:284-314 | an offset is blank in the mask exactly when a pattern matches there, and otherwise holds the text's own character |
| ClaimGate.LineStarts | benchmarks/claim_gate.py:325-330 | the start of each line |
| ClaimGate.LineOf | benchmarks/claim_gate.py:333-342 | the binary search returns one plus the number of newlines before the offset |
| ClaimGate.TokensAreSound | benchmarks/claim_gate.py:377-400 | numbers with a real sign, found over the mask, are ordered, stay on a line and hold no marker |
| ClaimGate.BindAll | benchmarks/claim_gate.py:388-406 | one claim for each number, with its text, its line and its binding |
| ClaimGate.ScanText | benchmarks/claim_gate.py:365-407 | from a text and any well-behaved patterns: each claim has the literal number of the text, without a minus glued to an ASCII letter or digit, its line, and exactly the marker it is the nearest number before |
| ClaimGate.MarkerCountsExactly | benchmarks/claim_gate.py:377-384 | a marker counts if and only if no code pattern matches where it starts |
| ClaimGate.BindingIsNearest | benchmarks/claim_gate.py:345-362 | a number binds a marker if and only if that is the first marker after it on its line and no number starts in between |
| ClaimGate.SharedMarkerExactly | benchmarks/claim_gate.py:345-362 | two numbers share a marker if and only if they touch and no later number starts before it |
| ClaimGate.GapsMakeBindingUnique | benchmarks/claim_gate.py:345-362 | with a gap between tokens no marker covers two numbers |
| ClaimGate.TouchingTokensShareAMarker | benchmarks/claim_gate.py:231 | `1,2345` before a marker is the boundary case |
| Postdating.ConversationEnds | benchmarks/check_utterance_postdating.py:163-185 | each conversation's instant is the declared one, or the latest date among its own turns |
| Postdating.PostdatingTurns | benchmarks/check_utterance_postdating.py:188-207 | exactly the pairs of reference conversation and later turn, once each, in order of conversation and then position |
| Postdating.DerivedNeverDemotesItsOwn | benchmarks/check_utterance_postdating.py:174-179 | over derived instants the own-scope list is always empty |
| Postdating.MergedIsEmptyExactly | benchmarks/check_utterance_postdating.py:188-207 | over derived instants the merged list is empty if and only if all instants are equal |
| Postdating.DeclaredDemotesExactly | benchmarks/check_utterance_postdating.py:188-207 | over a declared instant either list is empty if and only if no turn postdates it |
| Postdating.SpreadIsDifferentEnds | benchmarks/check_utterance_postdating.py:306-322 | the instants differ if and only if some conversation ended before another's turn |
| Postdating.Judge | benchmarks/check_utterance_postdating.py:282-345 | the exit code is 0 or 1, exactly when it is 0, and what each verdict says about the turns |
| Postdating.DeclaredPassSurvives | benchmarks/check_utterance_postdating.py:311-319 | added turns keep a declared pass if and only if none of them postdates the instant |
| Postdating.DerivedPassSurvivesNewTranscripts | benchmarks/check_utterance_postdating.py:306-322 | new transcripts, whatever their dates, never turn a derived pass into a failure |
| Postdating.DerivedPassIsLostByCatchingUp | benchmarks/check_utterance_postdating.py:320-325 | later turns in the old transcripts always can |
| UtteranceDates.ReadTurn | benchmarks/check_utterance_postdating.py:125-159 | a turn is dated if and only if its session has a date and its id is a non-empty string with the session's prefix, and then it carries its own id and its session's date |
| UtteranceDates.ReadTurnExactly | benchmarks/check_utterance_postdating.py:125-159 | each reason under its own condition, and that an id has its session's prefix when it is the prefix or goes on with a colon after it |
| UtteranceDates.KeysExactly | benchmarks/check_utterance_postdating.py:106-124 | which keys are passed over, which have an index, and the prefix that index gives |
| UtteranceDates.CorpusTurns | benchmarks/check_utterance_postdating.py:90-160 | the two lists the nested loops build are the two kinds of reading, in corpus order |
| UtteranceDates.NothingIsDropped | benchmarks/check_utterance_postdating.py:90-160 | each reading is in one list; the problem list is empty if and only if the corpus is well formed; the turns are exactly those the corpus says, and the problems exactly those it gives, each with its place and reason |
| UtteranceDates.Check | benchmarks/check_utterance_postdating.py:250-345 | with a declared instant the exit code is 0 if and only if the corpus is well formed, holds a turn and says nothing after the instant; without one if and only if it is well formed and one conversation ended before a turn of another |

## Left out

- Partial lines left by a crash in the middle of an append to a JSONL file: each single write is one step.
- Failures inside a rollback, and failures of the staging copies before the handover begins.
- Floating point: sums, quotients and ranks are exact, `erfc` is a parameter, and the square root of the correlation is a number whose square is given.
- `generate_answer` of `benchmarks/atm_full_run.py`: the request, its retries and its prices. One answer arrives as a whole, and tokens of an attempt that ends in an exception are not modelled, as the code does not record them.
- The manifest of the answer run and its history of commits, and the metadata fields of a record that no check reads.
- The check of `accept_answer` that a repeated position cannot occur: completion order is free, and each pending position is accepted once.
- Argument validation of `index_documents`, the embedder, and how a document is cut into chunks: a document comes with its parts.
- The database behind the store: a batch is one atomic change, as the store's own transaction makes it.
- Tokenizers, encoders, digests and regular expressions: each is a parameter with its assumption stated at its use. Different texts are taken to have different digests.
- What a marker says (pending, withdrawn, or an artifact and key) and the document's name: a marker is its position.
- `lookup`, `matches`, `resolve` and the withdrawn and baseline files of `benchmarks/claim_gate.py`: each claim by itself, without interplay between claims.
- `session_dates`: a conversation comes with the dates read from it. Digits in a session key are ASCII.
- Calendar dates are day numbers, and JSON is read before the model begins.
- Identifiers in the evidence graph are integers, compared for equality and order only.
- The artifact object of `benchmarks/evidence_graph_eval.py`, which only appends observations.
- The DOM, status messages, storage and translation providers of `site/readme.js`. Refusing a page with too many nodes is a failed task.
- `SharedClient.Client.CompleteOnce`: one thread at a time; the interleaved calls are the step system above it.
- Conversions other than of a price or a count: a number that converts but is not finite, and attributes whose reading itself raises.
- The seven fields of `trigger_analysis` that only count points under the default drift bound.
- `_merge_scored_hits`, `_doc_ids_from_hits` and `_expansion_evidence` of `benchmarks/enterprise_rag.py`, `answerable` beyond its filter, and the metric reports: single passes without state.
- Everything under `recall/` except the reading of assistant text.
