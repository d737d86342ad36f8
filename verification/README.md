# Resumable stage processing and heading numbering, modelled in Dafny

This project models two cores of the BypassAIGC backend.

**The optimization orchestrator** (`OptimizationService` in
`backend/app/services/optimization_service.py`). One attempt at a run goes like this:
- It clears the previous error and checkpoint.
- On the first attempt only, it splits the original text into segment records.
- It runs the stages of the processing mode in order (`polish`, `emotion_polish`, or `polish` then `enhance`).
- Each stage walks the segments from a checkpoint. It skips segments that already carry the stage's output. It classifies short segments as titles. It makes one generative call per remaining segment.
- After each call it records an audit entry, appends the reply to a rolling history, compresses that history once its weight passes a threshold, and saves a snapshot of it.
- The attempt ends completed (progress 100) or failed (the error kept, the failing segment marked and pointed at).
- Either way, the admission gate is released.

Durability is modelled as "the store after every step". Every function that takes a `Store` returns the records as committed. Three observation traces sit next to the records:
- every generative request (`calls`);
- every progress value written (`progressLog`);
- how often the gate was released (`releases`).

The collaborators the core cannot see are parameters (`Env`): the segmenter, the two text counters, the generative service, the compression service and the two configured thresholds. The generative service gets the stage, the position, the input and the history, so it may answer differently for every request.

**The pure heading and keyword logic of the Word renderer**
(`package/backend/app/word_formatter/services/renderer.py`):
- the six-counter `HeadingNumberer`;
- the level implied by a written number such as "1.2" or "1．2";
- the offset that makes the shallowest body heading level 1;
- the front-matter heading tests;
- the effective level clamped to [1, 3];
- the style and displayed text of one heading;
- the two keyword-line normalisers.

Modules, in dependency order:
- `Wrappers`: `Option`, `Result`, `Min`, `Max`.
- `Text`: Python's `isspace`, `strip`, `lower`, `re.split` on a character class, `sep.join`, `str(int)` and `int(str)`.
- `Stages`, `HistoryManager` (`_compress_history`, `_save_history`), `ChangeRecorder` (`_record_change`).
- `Records`, `StageProcessor` (`_process_stage`, `_run_with_retry`), `RunController` (`start_optimization`).
- `Numbering`, `HeadingLevels`, `Keywords`.

Behaviour of the code that the proofs make explicit:
- `start_optimization` clears `failed_segment_index` (line 68) before any stage reads it (line 185). So every attempt starts each stage at position 0 (`StartIgnoresCheckpoint`). Resumption comes from the skip rules alone (`StartNeverResends`): a segment that already carries a stage's output is never sent to the generative service again for that stage.
- Once the history has been compressed, the next segment appends an ordinary turn to it. If the weight then stays under the threshold, the next snapshot is not compressed. Any expectation that "every snapshot after the first compression is compressed" does not hold in the code, and this model follows the code (`Remember`, `GenerateSuccess`).
- A segment whose call succeeds but whose compression then fails ends `failed` with its output already written (`GenerateFailure`, `GenerateReply`). The next attempt skips it for that stage because its output is set.
- The segments are materialized before the processing mode is checked. So a run with an unsupported mode still gets its segment records, and then fails without any generative call (`StartUnsupportedMode`).
- The exact-match half of `_is_front_heading` adds nothing to its lower-cased half, because every front heading is already lower case (`IsFrontHeading`).

## Model

| member | source | states |
|---|---|---|
| HistoryManager.IsCompressed | backend/app/services/optimization_service.py:301 | a history counts as compressed exactly when it is one system turn; `SaveAfterCompress` shows every successful compression yields one and the snapshot flag follows it |
| HistoryManager.Weight | backend/app/services/optimization_service.py:174-181 | the weight of a history is the script-aware count of all its turns; `WeightAppend` shows the loop's running total and the recount at line 260 agree |
| HistoryManager.WeightAppend | backend/app/services/optimization_service.py:251-252 | appending a turn adds exactly the weight of its content, so the loop's running total agrees with a fresh recount |
| HistoryManager.TemplateFor | backend/app/services/optimization_service.py:309-336 | the emotion-focused compression instruction is chosen exactly for `emotion_polish`, the academic one for every other stage; `Compress` hands it to the summariser |
| HistoryManager.RecentTurns | backend/app/services/optimization_service.py:306 | the style sample is the last min(3, n) turns of the history, a suffix of it |
| HistoryManager.Compress | backend/app/services/optimization_service.py:291-349 | an already compressed history (one system turn) comes back unchanged; otherwise the result succeeds exactly when the summariser does, is one system turn holding the fixed prefix followed by the summary of the recent turns, and a summariser error propagates |
| HistoryManager.CompressIdempotent | backend/app/services/optimization_service.py:301-303 | compressing a compressed history again is the identity and never consults the summariser |
| HistoryManager.Save | backend/app/services/optimization_service.py:351-361 | the snapshot holds the turns, stage and weight given, and is flagged compressed exactly when the history is one system turn |
| HistoryManager.SaveAfterCompress | backend/app/services/optimization_service.py:255-263 | the snapshot saved right after a successful compression is flagged compressed, and a snapshot of two or more turns never is |
| ChangeRecorder.Entry | backend/app/services/optimization_service.py:372-376 | the entry records both texts, their lengths, and "changed" exactly when they differ; `Record` makes it the entry the latest-first lookup finds |
| ChangeRecorder.LatestIndex | backend/app/services/optimization_service.py:378-382 | the result is the last position holding the key, or absent exactly when no entry holds it |
| ChangeRecorder.LatestIndexIs | backend/app/services/optimization_service.py:378-382 | a position holding the key with no later entry for it is the one the newest-first lookup finds |
| ChangeRecorder.Record | backend/app/services/optimization_service.py:363-401 | the log grows by one exactly when the key was absent; the latest entry for the key is the new before/after entry; entries of other keys are untouched; a log free of duplicate keys stays free of them |
| ChangeRecorder.RecordAgainKeepsLength | backend/app/services/optimization_service.py:386-390 | recording the same segment and stage again updates in place and never adds a row |
| StageProcessor.Progress | backend/app/services/optimization_service.py:193 | the progress written at a position lies in [0, 100) |
| StageProcessor.ProgressIncreases | backend/app/services/optimization_service.py:190-194 | a later position of the same stage always gets a strictly larger progress |
| StageProcessor.SkipThreshold | backend/app/services/optimization_service.py:188 | the threshold is the setting when that is positive and 0 otherwise, never negative |
| StageProcessor.StartIndex | backend/app/services/optimization_service.py:184-186 | the loop starts at 0 without a checkpoint or with a negative one, and at the checkpoint otherwise; `ProcessStageCalls` shows no request before it |
| StageProcessor.InitialHistory | backend/app/services/optimization_service.py:165-181 | the starting context has only non-empty assistant turns, no more turns than segments, and is empty when no non-title segment has output for the stage |
| StageProcessor.InitialHistoryConcat | backend/app/services/optimization_service.py:169-181 | the context of two runs of segments is the context of the first followed by that of the second, so the turns come in segment order |
| StageProcessor.InitialHistoryAppend | backend/app/services/optimization_service.py:169-181 | no segments give no turns, and each further segment adds exactly one assistant turn holding its stage output when it is not a title and that output is set, and nothing otherwise |
| StageProcessor.RunOnce | backend/app/services/optimization_service.py:273-280 | the single call's reply is passed through unchanged; a failure is re-raised under the 1-based segment number and the stage, with no second attempt; `GenerateFailure` shows the caller then failing the segment |
| StageProcessor.MarkFrame | backend/app/services/optimization_service.py:190-195 | marking a position makes it the current one and writes its progress to the run and as exactly one new entry of the progress trace; nothing else changes |
| StageProcessor.AsTitle | backend/app/services/optimization_service.py:207-218 | a segment classified as a title is flagged a title, keeps its position and original text, has the original as its output for every stage and is done with every stage |
| StageProcessor.NeedsGenerationEnds | backend/app/services/optimization_service.py:197-218 | a non-empty output for the stage ends a segment's need for the generative service, and so does title classification (for enhance always, for every stage when the original is not empty) |
| StageProcessor.WithOutput | backend/app/services/optimization_service.py:238-241 | the reply lands in the stage's column (`polished_text` for both polish stages, `enhanced_text` for enhance) and the segment keeps its identity |
| StageProcessor.Remember | backend/app/services/optimization_service.py:250-263 | after a call exactly one snapshot of the new history is saved; the history is compressed exactly when the running weight passed the threshold, otherwise it is the old one plus the reply; the weight stays a recount of the history; a compression failure is reported only past the threshold |
| StageProcessor.Generate | backend/app/services/optimization_service.py:220-271 | the step makes exactly one request, on the original text for the polish stages and on the polished text for enhance; it touches only its own segment, adds at most one snapshot and keeps the audit log free of duplicate keys |
| StageProcessor.GenerateSuccess | backend/app/services/optimization_service.py:236-263 | a step that goes on had a successful reply to its request (the stage, the position, the stage's input and the current history); the segment is completed with that reply in the stage's column, the checkpoint and error are untouched, and one snapshot is saved of the new history, which is compressed exactly when the weight passed the threshold and is otherwise the old history plus the reply |
| StageProcessor.GenerateFailure | backend/app/services/optimization_service.py:265-271 | a failed call or compression marks the segment failed and sets the checkpoint to its position and the error to the cause; a failed call's cause carries the 1-based number and the stage and leaves the segment's texts unwritten; a failed compression follows a successful reply, which is already in the stage's column; no snapshot is saved |
| StageProcessor.GenerateReply | backend/app/services/optimization_service.py:223-271 | the reply decides the step: a refusal aborts it with exactly the call error of that refusal, the segment failed with nothing written and the audit log untouched; a successful reply lands in the stage's column and becomes the segment's latest audit entry (input before, reply after), and the history goes on as the old one plus the reply unless compressed; only a refusal yields a call error |
| StageProcessor.Visit | backend/app/services/optimization_service.py:190-271 | one segment's step keeps the number, indices and original texts of the segments |
| StageProcessor.VisitFrame | backend/app/services/optimization_service.py:190-195 | one step writes exactly one progress value, touches no other segment, never writes the run's identity or the gate counter, and only appends to the requests and snapshots |
| StageProcessor.VisitCalls | backend/app/services/optimization_service.py:197-236 | one request is made exactly when the segment has no output for the stage, is not a title met by enhance and is long enough not to be a title; the request is on the stage's input text |
| StageProcessor.VisitSkips | backend/app/services/optimization_service.py:197-218 | a segment that needs no request leaves history, audit log, snapshots and checkpoint alone; one with output is left as it is; enhance fills a title's enhanced text from its polished or original text; a short segment becomes a completed title carrying its original text |
| StageProcessor.VisitSuccess | backend/app/services/optimization_service.py:197-263 | a step that goes on leaves the segment done with the stage and settled (a segment that needed the service holds the service's reply to its request in the stage's column; any other is what the skip rules make of it), the checkpoint and error untouched, and the weight a recount of the history |
| StageProcessor.VisitFailure | backend/app/services/optimization_service.py:265-271 | a step can abort only at a segment that needed the generative service, and then the segment is failed, the checkpoint and error point at it, and the service either refused its request with the message the call error carries or answered it with the text already in the stage's column |
| StageProcessor.VisitReply | backend/app/services/optimization_service.py:197-271 | for a segment that needs the service, a refusal of its request always aborts the step with that refusal's call error, a successful reply always ends up in the stage's column, and a call error only comes from a refusal |
| StageProcessor.VisitSettled | backend/app/services/optimization_service.py:197-263 | a step that goes on leaves its segment settled with respect to the segment it found |
| StageProcessor.Skipped | backend/app/services/optimization_service.py:197-218 | the skip rules leave a segment with output as it is, fill a title's enhanced text from its polished or else original text, and turn any other segment into a title; each result is done with the stage; `VisitSettled` shows the step agrees with it |
| StageProcessor.SettledHandled | backend/app/services/optimization_service.py:197-263 | a settled segment is done with the stage and keeps its position and original text |
| StageProcessor.SettledAnswered | backend/app/services/optimization_service.py:223-245 | a settled segment that needed the service is completed in the stage, still carries the stage's input, and holds the service's reply to the request made on it |
| StageProcessor.SettledTwice | backend/app/services/optimization_service.py:197-245 | after a polish-like stage and enhance, a segment that needed polishing still holds its polish reply, and one that needed enhancing holds an enhance reply to its final polished text |
| StageProcessor.StoppedFailedOn | backend/app/services/optimization_service.py:265-271 | a stopped segment is failed in its stage, and its request, read back from the segment, was refused with the call error's message or answered with the column's text |
| StageProcessor.FailSegment | backend/app/services/optimization_service.py:265-270 | a failure marks only its own segment failed, points the checkpoint at it and keeps the cause as the error; nothing else in the store changes |
| StageProcessor.VisitOthers | backend/app/services/optimization_service.py:190-271 | one step touches no segment but its own |
| StageProcessor.VisitProgress | backend/app/services/optimization_service.py:190-195 | one step writes exactly the progress value of its position |
| StageProcessor.VisitSegment | backend/app/services/optimization_service.py:197-241 | a step that goes on leaves its segment as it was or completed; a polish-like step keeps the title flag and enhanced text unless it turns the segment into a title |
| StageProcessor.Loop | backend/app/services/optimization_service.py:190 | the loop keeps the number, indices and original texts of the segments |
| StageProcessor.LoopFrame | backend/app/services/optimization_service.py:190-271 | the loop never writes segments before its start, the run's identity or the gate counter; it only appends to the traces; it keeps the audit log free of duplicate keys; it changes checkpoint and error only when it fails |
| StageProcessor.LoopCalls | backend/app/services/optimization_service.py:197-236 | every request of the loop is for its stage, at a position from the start on, for a segment that needed it when the loop began, in strictly increasing position order |
| StageProcessor.LoopProgressValues | backend/app/services/optimization_service.py:190-195 | the loop appends, in order, exactly the progress of each position it visits from its first one on |
| StageProcessor.WritesRise | backend/app/services/optimization_service.py:190-195 | a trace of the progress of consecutive positions stays below 100 and rises, starting at the first position's value |
| StageProcessor.LoopProgress | backend/app/services/optimization_service.py:190-195 | the loop's progress values start at its first position's value, stay below 100 and never decrease |
| StageProcessor.LoopFailure | backend/app/services/optimization_service.py:265-271 | a failing loop stops at a position from its start on that needed a request; that segment is failed, the checkpoint and error point at it, and the service refused its request with the call error's message or answered it before the compression raised |
| StageProcessor.LoopFailsAt | backend/app/services/optimization_service.py:265-271 | the induction behind `LoopFailure`: the stopping position, its need for a request, the checkpoint and error |
| StageProcessor.LoopStops | backend/app/services/optimization_service.py:190-271 | a loop failing at a position has settled every position before it from its start on, and leaves that segment stopped |
| StageProcessor.LoopFailureStops | backend/app/services/optimization_service.py:265-271 | a loop failing at a position has touched no later segment and requested no later position |
| StageProcessor.LoopSuccess | backend/app/services/optimization_service.py:190-263 | a loop that completes leaves every segment from its start on done with the stage and settled: every one that needed the service holds the service's reply to its request (stage, position, stage's input) in the stage's column, every other is what the skip rules make of it |
| StageProcessor.LoopSnapshots | backend/app/services/optimization_service.py:255-263 | every snapshot the loop saves carries the recount of its own turns and is flagged compressed exactly when it is one system turn |
| StageProcessor.LoopKeeps | backend/app/services/optimization_service.py:197-218 | a completed loop keeps every segment done with whatever stage it was done with; a polish-like loop never removes the enhance stage's reason to skip a segment |
| StageProcessor.VisitKeeps | backend/app/services/optimization_service.py:197-218 | the one-step form of `LoopKeeps` |
| StageProcessor.ProcessStage | backend/app/services/optimization_service.py:143-271 | a stage keeps the number, indices and original texts of the segments |
| StageProcessor.Begin | backend/app/services/optimization_service.py:145-181 | the stage starts from a running weight equal to the recount of its starting history |
| StageProcessor.ProcessStageCalls | backend/app/services/optimization_service.py:183-236 | every request a stage makes is for this stage, at or after the start index, for a segment without output for the stage that is no enhance title and not short, with no position requested twice |
| StageProcessor.ProcessStageFrame | backend/app/services/optimization_service.py:145-146 | a stage records itself as the current stage, leaves the segments before the start index, the run's identity and the gate alone, only appends to the traces, keeps audit keys unique, and writes checkpoint and error only on failure |
| StageProcessor.ProcessStageProgress | backend/app/services/optimization_service.py:190-195 | a stage's progress values start at its start position's value, stay below 100 and never decrease |
| StageProcessor.ProcessStageFailure | backend/app/services/optimization_service.py:265-271 | a failed stage stops at a segment from the start index on that needed a request, now failed and pointed at by checkpoint and error, whose request the service refused with the call error's message or answered before the compression raised; every earlier segment from the start index on is settled; no later segment is touched and no later position requested |
| StageProcessor.ProcessStageSuccess | backend/app/services/optimization_service.py:190-263 | a completed stage leaves every segment from the start index on done with it and settled, so every one that needed the service holds the service's reply to its request |
| StageProcessor.ProcessStageRefused | backend/app/services/optimization_service.py:227-236 | a stage cannot get past a segment that needs the service when every reply to its request is a refusal: it fails at that position or earlier |
| StageProcessor.ProcessStageSnapshots | backend/app/services/optimization_service.py:255-263 | every snapshot a stage saves agrees with its own turns |
| StageProcessor.ProcessStageKeeps | backend/app/services/optimization_service.py:197-218 | the stage form of `LoopKeeps` |
| RunController.StagesFor | backend/app/services/optimization_service.py:112-125 | a mode fails exactly when it is not one of the three known ones or missing, with the mode in the error; enhance comes only last and only for `paper_polish_enhance` or a missing mode; emotion polish exactly for `emotion_polish` |
| RunController.FreshSegments | backend/app/services/optimization_service.py:96-103 | one pending, untitled, output-free segment per piece, indexed by position, holding the piece; `Materialize` creates them only for a run that has none |
| RunController.Materialize | backend/app/services/optimization_service.py:85-109 | a run without segments gets exactly `FreshSegments` of the segmenter's pieces (pending, untitled, at stage `polish`), existing ones are kept, and the run's total counts them |
| RunController.MaterializeIdempotent | backend/app/services/optimization_service.py:85-109 | a second attempt creates no segments: materializing twice is materializing once |
| RunController.RunStages | backend/app/services/optimization_service.py:114-125 | running the mode's stages keeps the number, indices and original texts of the segments |
| RunController.Ready | backend/app/services/optimization_service.py:66-109 | the stages begin with no checkpoint, status processing, and a total equal to the number of segments |
| RunController.RunStagesFrame | backend/app/services/optimization_service.py:114-125 | the stages never write the run's identity or the gate, only append to the traces, keep audit keys unique, and write the checkpoint only on failure |
| RunController.RunStagesProgress | backend/app/services/optimization_service.py:190-195 | no stage writes a progress of 100 or more |
| RunController.RunStagesSnapshots | backend/app/services/optimization_service.py:262-263 | every snapshot saved belongs to one of the stages run and agrees with its own turns |
| RunController.RunStagesFailure | backend/app/services/optimization_service.py:265-271 | a failed stage sequence names a segment position that the checkpoint and error point at; the segment is failed in one of the stages, whose service refused its request with the call error's message or answered it before the compression raised |
| RunController.RunStagesRefused | backend/app/services/optimization_service.py:113-125 | the stages cannot complete while every reply to the request of a segment that needs the first stage is a refusal |
| RunController.RunStagesNeverResends | backend/app/services/optimization_service.py:113-125 | starting without a checkpoint, the stages of a mode request no segment that already carries the stage's output, no enhance title and no short segment, and no position twice per stage |
| RunController.RunStagesSuccess | backend/app/services/optimization_service.py:113-125 | when no stage raises, every segment is done with every stage of the mode, and every segment that needed the service for a stage holds in that stage's column the service's reply to its request on the stage's input |
| RunController.Start | backend/app/services/optimization_service.py:60-141 | the run completes exactly when no stage raised, and then its last progress write is 100 and the checkpoint is clear; otherwise it is failed with the raised error |
| RunController.StartEnds | backend/app/services/optimization_service.py:60-141 | the gate is released exactly once; identity is kept and the total counts the segments; a completed run has no error; audit keys stay unique |
| RunController.StartUnsupportedMode | backend/app/services/optimization_service.py:85-125 | an unsupported mode fails with that mode after the segments are materialized and before any request |
| RunController.StartIgnoresCheckpoint | backend/app/services/optimization_service.py:66-69 | an attempt behaves the same whatever checkpoint and error the previous attempt left |
| RunController.StartProgress | backend/app/services/optimization_service.py:127-132 | every progress value written lies in [0, 100], and the last one is 100 exactly when the run completes |
| RunController.StartNeverResends | backend/app/services/optimization_service.py:197-206 | an attempt never requests a segment that already carries the stage's output, a title for enhance, or a short segment, and requests each position at most once per stage |
| RunController.StartSuccess | backend/app/services/optimization_service.py:127-132 | a completed run has a supported mode and leaves every segment done with every stage of it; every segment that needed the service for one of them, as the attempt found it, holds in that stage's column the service's reply to its request |
| RunController.StartFailure | backend/app/services/optimization_service.py:134-138 | a failed run either rejected its mode with no request, or stopped at a segment of one of its stages that the checkpoint points at, failed because the service refused its request with the call error's message or because the compression raised after a reply |
| RunController.StartRefused | backend/app/services/optimization_service.py:113-138 | a run fails when every reply to the requests of a segment that needs its first stage is a refusal |
| RunController.StartSnapshots | backend/app/services/optimization_service.py:262-263 | an unsupported mode saves no snapshot; otherwise every snapshot belongs to a stage of the mode and agrees with its turns |
| Text.IsSpace | package/backend/app/word_formatter/services/renderer.py:574 | the characters of Python's `str.isspace` and of `\s`; `WhitespaceIsSpace` shows the separator set used for splitting holds exactly them |
| Text.Join | package/backend/app/word_formatter/services/renderer.py:575 | `sep.join(parts)`: the pieces in order with the separator between each two; `SplitJoinPlain` splits a one-character join back into its pieces and `RemoveAllJoin` shows it adds only separator characters |
| Text.RemoveAllJoin | package/backend/app/word_formatter/services/renderer.py:575 | a join whose separator is made of removed characters loses exactly what the plain concatenation of the pieces loses |
| Text.SplitAround | package/backend/app/word_formatter/services/renderer.py:574 | a separator character between two parts of a text splits it into the pieces of the part before followed by those of the part after |
| Text.Split | package/backend/app/word_formatter/services/renderer.py:72 | splitting gives one more piece than there are separators, and no piece holds a separator |
| Text.SplitJoinPlain | package/backend/app/word_formatter/services/renderer.py:72 | splitting text joined with a separator character gives back the pieces when none holds a separator |
| Text.Lower | package/backend/app/word_formatter/services/renderer.py:168 | lower-casing keeps the length and maps every character through the ASCII case map |
| Text.Strip | package/backend/app/word_formatter/services/renderer.py:579 | the result is a contiguous part of the text with no whitespace at either end, and everything cut off before and after it is whitespace |
| Text.RemoveAllStrip | package/backend/app/word_formatter/services/renderer.py:579 | when every whitespace character counts as removable, stripping loses nothing that is not removable |
| Text.IntToString | package/backend/app/word_formatter/services/renderer.py:95 | the decimal text is never empty, starts with a minus sign exactly for a negative number, and is otherwise all digits |
| Text.ParseInt | package/backend/app/word_formatter/services/renderer.py:76 | only an optional sign followed by ASCII digits parses; every non-empty string of digits parses to a non-negative value, and a negative value needs a leading minus |
| Text.IntToStringParses | package/backend/app/word_formatter/services/renderer.py:76 | `int(str(i))` is `i` for every integer |
| Numbering.ZeroFrom | package/backend/app/word_formatter/services/renderer.py:80-82 | every counter from the given position on becomes 0 and the ones before it are kept |
| Numbering.New | package/backend/app/word_formatter/services/renderer.py:50-53 | six zero counters and a maximum level of min(max level, 6); `NewIsReset` shows it numbers like a reset numberer |
| Numbering.Reset | package/backend/app/word_formatter/services/renderer.py:55-57 | every counter is 0 and the settings are kept |
| Numbering.FirstNumberAfterReset | package/backend/app/word_formatter/services/renderer.py:55-57 | after a reset the first number at a level has its shallower counters at 0 and its own at 1, "1" at level 1 |
| Numbering.NewIsReset | package/backend/app/word_formatter/services/renderer.py:50-57 | a fresh numberer is a reset numberer with the same settings |
| Numbering.Render | package/backend/app/word_formatter/services/renderer.py:95 | each counter becomes its decimal text; `NumberComponents` reads every part back as its counter |
| Numbering.Absorb | package/backend/app/word_formatter/services/renderer.py:72-78 | every part `Text.ParseInt` accepts (an optional sign and ASCII digits) overwrites the counter at its position, the others leave it alone |
| Numbering.SyncToExisting | package/backend/app/word_formatter/services/renderer.py:59-82 | nothing changes for a level outside 1..6; otherwise each counter before the level is the parsed part at its position when that parses and is kept otherwise, and every counter from the level on is 0 |
| Numbering.GetCurrentNumber | package/backend/app/word_formatter/services/renderer.py:84-96 | "" outside 1..max level, otherwise the first `level` counters joined by the separator; `NumberComponents` and `SyncThenGet` show it splits back into them |
| Numbering.NextNumber | package/backend/app/word_formatter/services/renderer.py:98-121 | outside 1..max level "" and no change; otherwise the level's counter goes up by one, shallower ones are kept, deeper ones are zeroed, and the text is what `get_current_number` then reports |
| Numbering.NumberComponents | package/backend/app/word_formatter/services/renderer.py:93-96 | with a one-character non-digit separator the number has exactly `level` parts, each reading back as its counter |
| Numbering.NextNumberComponents | package/backend/app/word_formatter/services/renderer.py:98-121 | the next number has `level` parts, the last the incremented counter, the others the shallower counters |
| Numbering.SyncThenGet | package/backend/app/word_formatter/services/renderer.py:59-96 | synchronising to a number the numberer could print at its own level and asking for the current number gives that number back, with either full stop |
| Numbering.SyncThenNext | package/backend/app/word_formatter/services/renderer.py:59-121 | after synchronising to a written number, the next number at that level continues it with the last component incremented |
| Numbering.SyncCounters | package/backend/app/word_formatter/services/renderer.py:72-78 | synchronising to a printed number sets the counters up to its level to its components |
| HeadingLevels.IsFrontHeading | package/backend/app/word_formatter/services/renderer.py:166-168 | a text is a front heading exactly when its lower-case form is one of the front headings |
| HeadingLevels.IsFrontOnlyHeading | package/backend/app/word_formatter/services/renderer.py:171-173 | a text is a front-only heading exactly when its lower-case form is one of the front-only headings |
| HeadingLevels.FrontOnlyIsFront | package/backend/app/word_formatter/services/renderer.py:137-144 | every front-only heading is a front heading |
| HeadingLevels.InferLevel | package/backend/app/word_formatter/services/renderer.py:150-163 | the level is at least 1 and one more than the number of full stops of either width |
| HeadingLevels.InferLevelComponents | package/backend/app/word_formatter/services/renderer.py:150-163 | the inferred level is the number of components the number splits into |
| HeadingLevels.InferLevelOfPrinted | package/backend/app/word_formatter/services/renderer.py:150-163 | a number printed by the numberer at a level, with either full stop, implies that level |
| HeadingLevels.MinLevelWhereIsMin | package/backend/app/word_formatter/services/renderer.py:257-265 | the minimum is absent exactly when no heading is selected, and otherwise is the level of a selected heading and at most every selected heading's level |
| HeadingLevels.IsBodyHeading | package/backend/app/word_formatter/services/renderer.py:257-261 | a block is a body heading exactly when it is a heading whose stripped text is not a front heading |
| HeadingLevels.MinBodyLevel | package/backend/app/word_formatter/services/renderer.py:255-265 | the shallowest body level is absent exactly when there is no body heading, and otherwise is the level of a body heading and at most every body heading's level |
| HeadingLevels.DetectOffset | package/backend/app/word_formatter/services/renderer.py:245-271 | the offset is never negative, is positive exactly when the shallowest body heading is deeper than 1, and is then that level less one |
| HeadingLevels.OffsetNormalises | package/backend/app/word_formatter/services/renderer.py:245-271 | with the offset applied, some body heading lands at level 1, and a positive offset takes no body heading below 1 |
| HeadingLevels.OffsetZero | package/backend/app/word_formatter/services/renderer.py:267-269 | no offset without body headings or when a body heading is at level 1 or shallower |
| HeadingLevels.EffectiveLevel | package/backend/app/word_formatter/services/renderer.py:363-371 | the level lies in [1, 3]: the inferred level of a written number, otherwise the block level less the offset and at least 1, capped at 3 |
| HeadingLevels.EffectiveLevelMonotone | package/backend/app/word_formatter/services/renderer.py:367-371 | a deeper unnumbered heading is never rendered shallower |
| HeadingLevels.EffectiveLevelOfPrinted | package/backend/app/word_formatter/services/renderer.py:363-371 | a heading carrying a number the numberer printed is rendered at that number's level, up to 3 |
| HeadingLevels.StyleFor | package/backend/app/word_formatter/services/renderer.py:373-380 | level 1 gets H1, level 2 gets H2 and every other level H3; a body heading never gets the front-heading style |
| HeadingLevels.RenderHeading | package/backend/app/word_formatter/services/renderer.py:358-393 | front headings keep their text and the numberer; others get their level's style; with numbering on and the level within the numbered depth they keep a written number and synchronise to it, or get the next number; otherwise the text is shown as is |
| HeadingLevels.AutoNumberHasLevelComponents | package/backend/app/word_formatter/services/renderer.py:320-323 | with the numberer built as the renderer builds it, an unnumbered body heading within the numbered depth gets a non-empty number with exactly as many parts as its level |
| Keywords.NonEmpty | package/backend/app/word_formatter/services/renderer.py:574 | dropping empty pieces keeps every other piece and the concatenation |
| Keywords.StripAll | package/backend/app/word_formatter/services/renderer.py:579 | every piece is stripped, the count unchanged |
| Keywords.NonEmptyAppend | package/backend/app/word_formatter/services/renderer.py:574 | dropping empty pieces from two runs of pieces is dropping them from each run |
| Keywords.CnPieces | package/backend/app/word_formatter/services/renderer.py:574 | the Chinese keywords are non-empty, hold no separator, and together are the line without its separators, in order |
| Keywords.CnPiecesSeparate | package/backend/app/word_formatter/services/renderer.py:574 | a separator between two parts of a line separates their keywords: the line's keywords are those before it followed by those after it |
| Keywords.CnPiecesPlain | package/backend/app/word_formatter/services/renderer.py:574 | text without a separator is exactly one keyword, or none when empty; with `CnPiecesSeparate` this fixes the keywords of every line |
| Keywords.NormalizeCn | package/backend/app/word_formatter/services/renderer.py:573-575 | only separators are removed or replaced, and the only separator left is the full-width space; `NormalizeCnSplits` shows the line splits back into exactly the keywords that `CnPiecesSeparate` and `CnPiecesPlain` fix |
| Keywords.JoinOnlySeparator | package/backend/app/word_formatter/services/renderer.py:575 | in separator-free pieces joined with `c`, the only separator character is `c` |
| Keywords.NormalizeCnSplits | package/backend/app/word_formatter/services/renderer.py:573-575 | the normalised line splits back into exactly its keywords |
| Keywords.NormalizeCnIdempotent | package/backend/app/word_formatter/services/renderer.py:573-575 | normalising keeps the keywords, so normalising twice is normalising once |
| Keywords.EnPieces | package/backend/app/word_formatter/services/renderer.py:579 | the English keywords are non-empty, stripped and hold no separator, and together keep every character of the line that is neither a separator nor whitespace, in order; `EnPiecesSeparate` and `EnPiecesPlain` fix which they are |
| Keywords.EnPiecesSeparate | package/backend/app/word_formatter/services/renderer.py:579 | a separator between two parts of a line separates their keywords: the line's keywords are those before it followed by those after it |
| Keywords.EnPiecesPlain | package/backend/app/word_formatter/services/renderer.py:579 | text without a separator is exactly one keyword, its stripped form, or none when only whitespace is left |
| Keywords.NormalizeEn | package/backend/app/word_formatter/services/renderer.py:578-580 | the line is empty exactly when it has no keywords; the only separator left is `;`; apart from separators and whitespace, the line keeps exactly its characters, in order; `NormalizeEnSplits` shows its pieces are exactly the keywords that `EnPiecesSeparate` and `EnPiecesPlain` fix |
| Keywords.NormalizeEnSplits | package/backend/app/word_formatter/services/renderer.py:578-580 | the normalised line splits into the first keyword and every other one after one space |
| Keywords.EnPiecesOfJoin | package/backend/app/word_formatter/services/renderer.py:578-580 | keywords that are non-empty, stripped and separator-free, joined with "; ", split back into exactly themselves |
| Keywords.NormalizeEnIdempotent | package/backend/app/word_formatter/services/renderer.py:578-580 | normalising keeps the keywords, so normalising twice is normalising once |

## Left out

- Database sessions, commits and queries are not modelled. Each commit is "the store after the step", and the ordered segment query is the store's segment sequence.
- The admission gate's acquisition, the `queued` status and the polling loop (lines 71-79) are not modelled. They are concurrency and time. Only the release in the `finally` block is modelled, as the `releases` counter.
- `_init_ai_services` and the construction of `AIService` objects are not modelled. The bound generative operation of each stage and the compression service are `Env` parameters, and a failure while constructing them is not modelled.
- `_get_prompt` and the wording of the prompts and compression instructions are not modelled. Only which instruction is chosen is modelled (`Template`).
- Timestamps (`completed_at`) and the JSON serialisation of history and change details are not modelled. The snapshot holds the turns, and the change entry holds its three detail fields.
- Error messages are not formatted text. They are the structured `Error` value; `CallFailed` keeps the 1-based segment number and the stage that the message spells out.
- Segmenting, `count_text_length` and `count_chinese_characters` are opaque `Env` functions.
- Nullable text columns and the processing mode are strings in which "" stands for NULL. Most reads in the core are truthiness tests, which cannot tell the two apart. Two reads are not: the enhance input (line 225) and the audit entry's `len(before)` (line 373).
- StageProcessor.Generate: a segment with a NULL `polished_text` that reaches enhance is sent "" here. In Python the service would get `None`; if it still answered, `enhanced_text` would be committed (lines 238-245) and the audit entry's `len(None)` (line 373) would then raise, failing the segment with the checkpoint at it. Under `Start` this cannot arise: enhance only runs after a polish stage that completed, and polish writes `polished_text` for every segment it does not skip, skipping only segments that already have one.
- StageProcessor.LoopSuccess, StageProcessor.ProcessStageSuccess, RunController.RunStagesSuccess and RunController.StartSuccess identify a reply by its request (stage, position, input) under some history, not the history the loop passed at that point; `GenerateSuccess` and `GenerateReply` state the history for one step.
- StageProcessor.Progress: computed with exact reals, where Python divides floats (line 193). The bounds and the strict increase hold for floats only while the number of segments is far below 2^52.
- Failures of the store itself (a commit raising) are not modelled.
- Text.Lower: lower-cases ASCII letters only. Every front heading is lower case, but a non-ASCII capital would be left as it is, unlike Python's `str.lower`.
- Numbering.Absorb: a part in full-width or other non-ASCII digits, such as each part of "１．２", is skipped here, where Python's `int` would read it. The written-number pattern at line 147 also matches such digits with `\d`.
- Numbering.SyncToExisting: for the same reason, a written number in non-ASCII digits does not set the counters here.
- Text.ParseInt: models Python's `int` only on an optional sign followed by ASCII digits. Surrounding whitespace, underscores and non-ASCII digits, which Python also accepts, count as failures here.
- Text.Split: splits on single separator characters. The two keyword normalisers split on runs (`[...]+`) and then drop empty pieces, which gives the same pieces.
- The rest of `render_docx` is not modelled: document emission, styles, sections, page numbering, tables, and the regular expression that separates a written number from a heading's text (lines 146-147 and 329-334). `RenderHeading` takes the stripped text and the written number as inputs.
- The section classification of headings (lines 336-347) and the insertion of the main section break (lines 349-356) are not modelled. They only affect document layout.
- The summary text is opaque. The "at most 30% of the original" wording of the compression instruction is a request to the service, not something the code checks.
