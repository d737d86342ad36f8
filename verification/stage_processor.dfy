/** `_process_stage` and `_run_with_retry`: one stage over the segments of a run, from the
    checkpoint to the end, one segment at a time. */
module StageProcessor {
  import opened Wrappers
  import opened Stages
  import opened HistoryManager
  import opened ChangeRecorder
  import opened Records

  lemma DivideBelow(a: real, b: real, y: real)
    requires 0.0 <= a < b && y > 0.0
    ensures 0.0 <= a / y * 100.0 < b / y * 100.0
  {
    assert a / y * y == a && b / y * y == b;
    assert 0.0 <= a / y < b / y;
  }

  /** The progress written when position `idx` of `n` is visited: half a segment further on
      in the enhance stage. */
  function Progress(idx: nat, n: nat, stage: Stage): (p: real)
    requires idx < n
    ensures 0.0 <= p < 100.0
  {
    var offset := if stage == Enhance then 0.5 else 0.0;
    DivideBelow((idx as real) + offset, n as real, n as real);
    assert (n as real) / (n as real) == 1.0;
    ((idx as real) + offset) / (n as real) * 100.0
  }

  lemma ProgressIncreases(i: nat, j: nat, n: nat, stage: Stage)
    requires i < j < n
    ensures Progress(i, n, stage) < Progress(j, n, stage)
  {
    var offset := if stage == Enhance then 0.5 else 0.0;
    DivideBelow((i as real) + offset, (j as real) + offset, n as real);
  }

  /** `max(settings.SEGMENT_SKIP_THRESHOLD, 0)`. */
  function SkipThreshold(env: Env): (t: int)
    ensures t >= 0 && t >= env.skipSetting
    ensures t == env.skipSetting || t == 0
  {
    Max(env.skipSetting, 0)
  }

  /** Where the loop starts: `max(failed_segment_index, 0)` when a checkpoint is set, else 0. */
  function StartIndex(checkpoint: Option<int>): (i: nat)
    ensures checkpoint.None? ==> i == 0
    ensures checkpoint.Some? && checkpoint.value >= 0 ==> i == checkpoint.value
    ensures checkpoint.Some? && checkpoint.value < 0 ==> i == 0
  {
    match checkpoint
    case None => 0
    case Some(k) => Max(k, 0)
  }

  /** The context the stage starts from: one assistant turn per non-title segment whose
      output for this stage is already set, in segment order. */
  function InitialHistory(segs: seq<Segment>, stage: Stage): (h: seq<Turn>)
    ensures |h| <= |segs|
    ensures forall k :: 0 <= k < |h| ==> h[k].role == Assistant && h[k].content != ""
    ensures (forall j :: 0 <= j < |segs| ==> segs[j].isTitle || Output(stage, segs[j]) == "") ==> h == []
  {
    if segs == [] then []
    else
      var rest := InitialHistory(segs[1..], stage);
      assert forall j :: 0 <= j < |segs[1..]| ==> segs[1..][j] == segs[j + 1];
      if !segs[0].isTitle && Output(stage, segs[0]) != "" then [Turn(Assistant, Output(stage, segs[0]))] + rest
      else rest
  }

  /** The context of a list of segments is the context of its first part followed by that of
      the rest: the turns come in segment order. */
  lemma {:induction false} InitialHistoryConcat(a: seq<Segment>, b: seq<Segment>, stage: Stage)
    ensures InitialHistory(a + b, stage) == InitialHistory(a, stage) + InitialHistory(b, stage)
    decreases |a|
  {
    if a == [] {
      assert a + b == b;
    } else {
      assert (a + b)[0] == a[0] && (a + b)[1..] == a[1..] + b;
      InitialHistoryConcat(a[1..], b, stage);
    }
  }

  /** One pass of the loading loop: the next segment adds the assistant turn holding its output
      for the stage exactly when it is not a title and that output is set, and nothing else.
      With `InitialHistory([], stage) == []` this fixes the whole context. */
  lemma InitialHistoryAppend(segs: seq<Segment>, seg: Segment, stage: Stage)
    ensures InitialHistory([], stage) == []
    ensures InitialHistory(segs + [seg], stage) == InitialHistory(segs, stage) +
      (if !seg.isTitle && Output(stage, seg) != "" then [Turn(Assistant, Output(stage, seg))] else [])
  {
    InitialHistoryConcat(segs, [seg], stage);
    assert [seg][1..] == [];
  }

  /** `_run_with_retry`: the one reply of the one call, with a failure re-raised under the
      1-based segment number and the stage name. There is no second attempt. */
  function RunOnce(idx: nat, stage: Stage, reply: Result<string, string>): (r: Result<string, Error>)
    ensures r.Success? <==> reply.Success?
    ensures r.Success? ==> r.value == reply.value
    ensures r.Failure? ==> r.error == CallFailed(idx + 1, stage, reply.error)
  {
    match reply
    case Success(text) => Success(text)
    case Failure(message) => Failure(CallFailed(idx + 1, stage, message))
  }

  /** The segment needs the generative service in this stage: its output for the stage is
      unset, it is not a title met by enhance, and it is long enough not to be a title. */
  predicate NeedsGeneration(env: Env, stage: Stage, seg: Segment) {
    && Output(stage, seg) == ""
    && !(stage == Enhance && seg.isTitle)
    && env.countLength(seg.original) >= SkipThreshold(env)
  }

  /** The text a stage sends for a segment: the original for the polish stages, the polished
      text for enhance. */
  function StageInput(stage: Stage, seg: Segment): string {
    if stage == Enhance then seg.polished else seg.original
  }

  /** The service answered the request with `text`, under some conversation history. */
  ghost predicate Answered(env: Env, call: AiCall, text: string) {
    exists h :: env.generate(call.stage, call.position, call.input, h) == Success(text)
  }

  /** The service refused the request with `message`, under some conversation history. */
  ghost predicate Refused(env: Env, call: AiCall, message: string) {
    exists h :: env.generate(call.stage, call.position, call.input, h) == Failure(message)
  }

  /** The segment is done with this stage: its output is set or it is marked completed. */
  predicate Handled(stage: Stage, seg: Segment) {
    Output(stage, seg) != "" || seg.status == SegmentStatus.Completed
  }

  /** What a segment becomes when classified as a title: completed, so done with every stage,
      keeping its position and original text. */
  function AsTitle(seg: Segment, stage: Stage): (r: Segment)
    ensures r.isTitle && r.index == seg.index && r.original == seg.original
    ensures forall st :: Handled(st, r)
    ensures forall st :: Output(st, r) == seg.original
  {
    seg.(isTitle := true, status := SegmentStatus.Completed, polished := seg.original,
         enhanced := seg.original, stage := stage)
  }

  /** What the skip rules make of a segment that needs no generative call: it stays as it is
      when it carries the stage's output; a title met by enhance gets its polished text, or
      else its original, as enhanced text and is completed; any other is short and becomes a
      title. */
  function Skipped(stage: Stage, seg: Segment): (r: Segment)
    ensures Handled(stage, r)
    ensures r.index == seg.index && r.original == seg.original
    ensures Output(stage, seg) != "" ==> r == seg
  {
    if Output(stage, seg) != "" then seg
    else if stage == Enhance && seg.isTitle then
      seg.(enhanced := if seg.polished != "" then seg.polished else seg.original, status := SegmentStatus.Completed)
    else AsTitle(seg, stage)
  }

  /** What ends a segment's need for the generative service in a stage: a non-empty output
      for it, or classification as a title (for enhance always, for every stage when the
      original text is not empty). */
  lemma NeedsGenerationEnds(env: Env, stage: Stage, seg: Segment, text: string)
    ensures text != "" ==> !NeedsGeneration(env, stage, WithOutput(seg, stage, text))
    ensures !NeedsGeneration(env, Enhance, AsTitle(seg, stage))
    ensures seg.original != "" ==> forall st :: !NeedsGeneration(env, st, AsTitle(seg, stage))
  {
  }

  function WithOutput(seg: Segment, stage: Stage, text: string): (s: Segment)
    ensures Output(stage, s) == text
    ensures s.index == seg.index && s.original == seg.original && s.isTitle == seg.isTitle
  {
    if stage == Enhance then seg.(enhanced := text) else seg.(polished := text)
  }

  /** The run fields a stage never writes. */
  predicate SameRunIdentity(a: Run, b: Run) {
    && a.id == b.id
    && a.originalText == b.originalText
    && a.mode == b.mode
    && a.status == b.status
    && a.totalSegments == b.totalSegments
  }

  /** Two segment lists hold the same segments: same length, same indices and original texts. */
  predicate SameSegments(a: seq<Segment>, b: seq<Segment>) {
    && |a| == |b|
    && forall j :: 0 <= j < |a| ==> a[j].index == b[j].index && a[j].original == b[j].original
  }

  /** The failure handler of the per-segment step. */
  function FailSegment(s: Store, idx: nat, cause: Error): (r: Store)
    requires idx < |s.segments|
    ensures |r.segments| == |s.segments|
    ensures forall j :: 0 <= j < |s.segments| && j != idx ==> r.segments[j] == s.segments[j]
    ensures r.segments[idx] == s.segments[idx].(status := SegmentStatus.Failed)
    ensures r.run == s.run.(failedIndex := Some(idx), errorMessage := Some(cause))
    ensures r.(segments := s.segments, run := s.run) == s
  {
    s.(segments := s.segments[idx := s.segments[idx].(status := SegmentStatus.Failed)],
       run := s.run.(failedIndex := Some(idx), errorMessage := Some(cause)))
  }

  /** The loop state: the store, the in-memory history and its running weight. */
  datatype Cursor = Cursor(store: Store, history: seq<Turn>, weight: int)

  /** The end of one segment's step: go on, or abort the stage with the store as committed. */
  datatype Step = Next(cursor: Cursor) | Abort(store: Store, err: Error)

  function After(step: Step): Store {
    match step
    case Next(c) => c.store
    case Abort(s, _) => s
  }

  /** The position and the progress are written first, whatever happens to the segment. */
  function Mark(s: Store, idx: nat, stage: Stage): Store
    requires idx < |s.segments|
  {
    var p := Progress(idx, |s.segments|, stage);
    s.(run := s.run.(currentPosition := idx, progress := p), progressLog := s.progressLog + [p])
  }

  /** Marking a position records it as the current one and writes its progress, to the run
      and as the next entry of the progress trace; nothing else in the store changes. */
  lemma MarkFrame(s: Store, idx: nat, stage: Stage)
    requires idx < |s.segments|
    ensures var r := Mark(s, idx, stage);
      && r.(run := s.run, progressLog := s.progressLog) == s
      && r.run.(currentPosition := s.run.currentPosition, progress := s.run.progress) == s.run
      && r.run.currentPosition == idx
      && |r.progressLog| == |s.progressLog| + 1 && r.progressLog[..|s.progressLog|] == s.progressLog
      && r.run.progress == r.progressLog[|s.progressLog|] == Progress(idx, |s.segments|, stage)
  {
  }

  /** After a successful call: append the output as an assistant turn, compress once the
      running weight exceeds the threshold (recounting the weight from the compressed
      history), and save a snapshot. A compression failure is returned as its message. */
  function Remember(env: Env, stage: Stage, c: Cursor, out: string): (r: Result<Cursor, string>)
    ensures r.Success? ==>
      r.value.store == c.store.(snapshots := c.store.snapshots + [Save(r.value.history, stage, r.value.weight)])
    ensures r.Success? && c.weight == Weight(c.history, env.countWeight) ==>
      r.value.weight == Weight(r.value.history, env.countWeight)
    ensures r.Success? ==>
      (IsCompressed(r.value.history) <==> c.weight + env.countWeight(out) > env.compressionThreshold)
    ensures r.Success? && c.weight + env.countWeight(out) <= env.compressionThreshold ==>
      r.value.history == c.history + [Turn(Assistant, out)]
    ensures r.Failure? ==> c.weight + env.countWeight(out) > env.compressionThreshold
  {
    var h := c.history + [Turn(Assistant, out)];
    var w := c.weight + env.countWeight(out);
    WeightAppend(c.history, Turn(Assistant, out), env.countWeight);
    assert !IsCompressed(h) by { assert h[|h| - 1].role == Assistant; }
    if w > env.compressionThreshold then
      match Compress(h, stage, env.summarise)
      case Failure(message) => Failure(message)
      case Success(compressed) =>
        var w' := Weight(compressed, env.countWeight);
        Success(Cursor(c.store.(snapshots := c.store.snapshots + [Save(compressed, stage, w')]), compressed, w'))
    else
      Success(Cursor(c.store.(snapshots := c.store.snapshots + [Save(h, stage, w)]), h, w))
  }

  /** The segment's one generative call and what follows it: the segment is marked
      processing, the reply is written to the stage's column, the audit entry is recorded and
      the history remembered; any exception marks the segment failed and sets the checkpoint. */
  function Generate(env: Env, stage: Stage, idx: nat, c: Cursor): (r: Step)
    requires idx < |c.store.segments|
    ensures SameSegments(After(r).segments, c.store.segments)
    ensures forall j :: 0 <= j < |c.store.segments| && j != idx ==> After(r).segments[j] == c.store.segments[j]
    ensures After(r).calls == c.store.calls + [AiCall(stage, idx, StageInput(stage, c.store.segments[idx]))]
    ensures After(r).progressLog == c.store.progressLog && After(r).releases == c.store.releases
    ensures SameRunIdentity(After(r).run, c.store.run)
    ensures After(r).run.currentPosition == c.store.run.currentPosition
    ensures After(r).run.currentStage == c.store.run.currentStage
    ensures |c.store.snapshots| <= |After(r).snapshots| <= |c.store.snapshots| + 1
    ensures After(r).snapshots[..|c.store.snapshots|] == c.store.snapshots
    ensures UniqueKeys(c.store.changes) ==> UniqueKeys(After(r).changes)
    ensures After(r).segments[idx].isTitle == c.store.segments[idx].isTitle
    ensures stage != Enhance ==> After(r).segments[idx].enhanced == c.store.segments[idx].enhanced
  {
    var seg := c.store.segments[idx];
    var input := if stage == Enhance then seg.polished else seg.original;
    var working := seg.(status := SegmentStatus.Processing, stage := stage);
    var st := c.store.(segments := c.store.segments[idx := working],
                       calls := c.store.calls + [AiCall(stage, idx, input)]);
    match RunOnce(idx, stage, env.generate(stage, idx, input, c.history))
    case Failure(e) =>
      Abort(FailSegment(st, idx, e), SegmentFailed(idx, e))
    case Success(out) =>
      var done := WithOutput(working, stage, out).(status := SegmentStatus.Completed);
      var st2 := st.(segments := c.store.segments[idx := done],
                     changes := Record(st.changes, ChangeKey(st.run.id, seg.index, stage), input, out));
      match Remember(env, stage, c.(store := st2), out)
      case Failure(message) =>
        Abort(FailSegment(st2, idx, Raised(message)), SegmentFailed(idx, Raised(message)))
      case Success(c') =>
        Next(c')
  }

  /** A step that goes on had a reply: the segment is completed with it in the stage's column,
      the checkpoint is untouched, the weight is still the recount of the history, and exactly
      one snapshot of the history is saved, compressed exactly when the weight crossed the
      threshold and otherwise the old history plus the reply. */
  lemma GenerateSuccess(env: Env, stage: Stage, idx: nat, c: Cursor)
    requires idx < |c.store.segments|
    ensures var r := Generate(env, stage, idx, c);
      var reply := env.generate(stage, idx, StageInput(stage, c.store.segments[idx]), c.history);
      r.Next? ==>
        && reply.Success?
        && var out := reply.value;
        && Output(stage, r.cursor.store.segments[idx]) == out
        && r.cursor.store.segments[idx].status == SegmentStatus.Completed
        && r.cursor.store.run.failedIndex == c.store.run.failedIndex
        && r.cursor.store.run.errorMessage == c.store.run.errorMessage
        && |r.cursor.store.snapshots| == |c.store.snapshots| + 1
        && r.cursor.store.snapshots[|c.store.snapshots|] == Save(r.cursor.history, stage, r.cursor.weight)
        && (c.weight == Weight(c.history, env.countWeight) ==> r.cursor.weight == Weight(r.cursor.history, env.countWeight))
        && (IsCompressed(r.cursor.history) <==> c.weight + env.countWeight(out) > env.compressionThreshold)
        && (c.weight + env.countWeight(out) <= env.compressionThreshold ==>
              r.cursor.history == c.history + [Turn(Assistant, out)])
  {
  }

  /** A failed call, or a failed compression, marks the segment failed and points the
      checkpoint and the error at it. A failed call wrote nothing; a failed compression
      follows a reply, which is already in the stage's column. */
  lemma GenerateFailure(env: Env, stage: Stage, idx: nat, c: Cursor)
    requires idx < |c.store.segments|
    ensures var r := Generate(env, stage, idx, c);
      r.Abort? ==>
        && r.err == SegmentFailed(idx, r.err.cause)
        && (r.err.cause.CallFailed? || r.err.cause.Raised?)
        && (r.err.cause.CallFailed? ==> r.err.cause.segmentNumber == idx + 1 && r.err.cause.stage == stage)
        && r.store.run.failedIndex == Some(idx)
        && r.store.run.errorMessage == Some(r.err.cause)
        && r.store.segments[idx].status == SegmentStatus.Failed
        && r.store.snapshots == c.store.snapshots
        && (r.err.cause.CallFailed? ==> r.store.segments[idx] == c.store.segments[idx].(status := SegmentStatus.Failed, stage := stage))
        && (r.err.cause.Raised? ==>
              var reply := env.generate(stage, idx, StageInput(stage, c.store.segments[idx]), c.history);
              reply.Success? && Output(stage, r.store.segments[idx]) == reply.value)
  {
  }

  /** What the one reply decides. A refusal aborts the step with the call's error, leaves the
      segment failed in this stage with nothing written and the audit log as it was. A reply
      is written to the stage's column and becomes the segment's audit entry for the stage,
      and the history that goes on is the old one plus the reply (or its compression); if the
      compression then raises, the segment is failed with the reply already written. Only a
      refusal gives a call error. */
  lemma GenerateReply(env: Env, stage: Stage, idx: nat, c: Cursor)
    requires idx < |c.store.segments|
    ensures var r := Generate(env, stage, idx, c); var seg := c.store.segments[idx];
      var reply := env.generate(stage, idx, StageInput(stage, seg), c.history);
      var key := ChangeKey(c.store.run.id, seg.index, stage);
      && (reply.Failure? ==>
            && r.Abort? && r.err == SegmentFailed(idx, CallFailed(idx + 1, stage, reply.error))
            && r.store.segments[idx] == seg.(status := SegmentStatus.Failed, stage := stage)
            && r.store.changes == c.store.changes)
      && (reply.Success? ==>
            && After(r).segments[idx] == WithOutput(seg, stage, reply.value).(
                 status := if r.Next? then SegmentStatus.Completed else SegmentStatus.Failed, stage := stage)
            && LatestIndex(After(r).changes, key).Some?
            && After(r).changes[LatestIndex(After(r).changes, key).value] == Entry(key, StageInput(stage, seg), reply.value)
            && (r.Abort? ==> r.err.cause.Raised?)
            && (r.Next? && c.weight + env.countWeight(reply.value) <= env.compressionThreshold ==>
                  r.cursor.history == c.history + [Turn(Assistant, reply.value)]))
  {
  }

  /** The step for the segment at position `idx`: write the progress, then apply the skip
      rules, the title rule, or the one generative call. */
  function Visit(env: Env, stage: Stage, idx: nat, c: Cursor): (r: Step)
    requires idx < |c.store.segments|
    ensures SameSegments(After(r).segments, c.store.segments)
  {
    var st := Mark(c.store, idx, stage);
    var seg := st.segments[idx];
    if stage != Enhance && seg.polished != "" then
      Next(c.(store := st))
    else if stage == Enhance && (seg.enhanced != "" || seg.isTitle) then
      if seg.isTitle && seg.enhanced == "" then
        var filled := seg.(enhanced := if seg.polished != "" then seg.polished else seg.original,
                           status := SegmentStatus.Completed);
        Next(c.(store := st.(segments := st.segments[idx := filled])))
      else
        Next(c.(store := st))
    else if env.countLength(seg.original) < SkipThreshold(env) then
      Next(c.(store := st.(segments := st.segments[idx := AsTitle(seg, stage)])))
    else
      Generate(env, stage, idx, c.(store := st))
  }

  /** What a stage that goes past position `j` leaves there, given the segment as the stage
      found it: a segment that needed the service is completed in this stage with a reply of
      the service to the request for it in the stage's column, and nothing else changed; any
      other is what the skip rules make of it. */
  ghost predicate Settled(env: Env, stage: Stage, j: nat, before: Segment, after: Segment) {
    if NeedsGeneration(env, stage, before) then
      && after == WithOutput(before, stage, Output(stage, after)).(status := SegmentStatus.Completed, stage := stage)
      && Answered(env, AiCall(stage, j, StageInput(stage, before)), Output(stage, after))
    else
      after == Skipped(stage, before)
  }

  /** What a stage that fails at position `j` leaves there: the segment failed in this stage,
      either with nothing written because the service refused the request with the message the
      call error carries, or, when the compression raised, with the reply already in the
      stage's column. */
  ghost predicate Stopped(env: Env, stage: Stage, j: nat, before: Segment, after: Segment, cause: Error) {
    && NeedsGeneration(env, stage, before)
    && (cause.CallFailed? || cause.Raised?)
    && (cause.CallFailed? ==>
          && after == before.(status := SegmentStatus.Failed, stage := stage)
          && Refused(env, AiCall(stage, j, StageInput(stage, before)), cause.message))
    && (cause.Raised? ==>
          && after == WithOutput(before, stage, Output(stage, after)).(status := SegmentStatus.Failed, stage := stage)
          && Answered(env, AiCall(stage, j, StageInput(stage, before)), Output(stage, after)))
  }

  /** A segment done with a stage is done with it. */
  lemma SettledHandled(env: Env, stage: Stage, j: nat, before: Segment, after: Segment)
    requires Settled(env, stage, j, before, after)
    ensures Handled(stage, after) && after.index == before.index && after.original == before.original
  {
  }

  /** A settled segment that needed the service holds in the stage's column a reply to the
      request made on the stage's input, which the settled segment still carries. */
  lemma SettledAnswered(env: Env, stage: Stage, j: nat, before: Segment, after: Segment)
    requires Settled(env, stage, j, before, after) && NeedsGeneration(env, stage, before)
    ensures after.status == SegmentStatus.Completed && after.stage == stage
    ensures StageInput(stage, after) == StageInput(stage, before)
    ensures Answered(env, AiCall(stage, j, StageInput(stage, after)), Output(stage, after))
  {
  }

  /** A polish-like stage followed by enhance: the polish reply of a segment that needed
      polishing survives enhance, and a segment that needed enhancing before polish still
      needs it after, so it holds an enhance reply to its final polished text. */
  lemma SettledTwice(env: Env, first: Stage, j: nat, before: Segment, mid: Segment, after: Segment)
    requires first != Enhance
    requires Settled(env, first, j, before, mid) && Settled(env, Enhance, j, mid, after)
    ensures NeedsGeneration(env, first, before) ==>
      Answered(env, AiCall(first, j, StageInput(first, after)), Output(first, after))
    ensures NeedsGeneration(env, Enhance, before) ==>
      Answered(env, AiCall(Enhance, j, StageInput(Enhance, after)), Output(Enhance, after))
  {
    SettledHandled(env, first, j, before, mid);
    SettledHandled(env, Enhance, j, mid, after);
    if NeedsGeneration(env, first, before) {
      SettledAnswered(env, first, j, before, mid);
      assert after.polished == mid.polished;
    }
    if NeedsGeneration(env, Enhance, before) {
      assert NeedsGeneration(env, Enhance, mid);
      SettledAnswered(env, Enhance, j, mid, after);
    }
  }

  /** A segment a stage left failed: the service refused its request with the message of a
      call error, or answered it with what the segment's column for the stage holds and the
      compression raised. */
  ghost predicate FailedOn(env: Env, j: nat, seg: Segment, cause: Error) {
    && seg.status == SegmentStatus.Failed
    && (cause.CallFailed? || cause.Raised?)
    && (cause.CallFailed? ==> Refused(env, AiCall(seg.stage, j, StageInput(seg.stage, seg)), cause.message))
    && (cause.Raised? ==> Answered(env, AiCall(seg.stage, j, StageInput(seg.stage, seg)), Output(seg.stage, seg)))
  }

  /** A stopped segment is failed on its stage's request. */
  lemma StoppedFailedOn(env: Env, stage: Stage, j: nat, before: Segment, after: Segment, cause: Error)
    requires Stopped(env, stage, j, before, after, cause)
    ensures after.stage == stage && FailedOn(env, j, after, cause)
  {
  }

  /** For a segment that needs the service, the step is decided by the reply to its one
      request: a refusal aborts it with the call's error, and a reply lands in the stage's
      column whatever follows; a call error comes from a refusal only. */
  lemma VisitReply(env: Env, stage: Stage, idx: nat, c: Cursor)
    requires idx < |c.store.segments|
    ensures var r := Visit(env, stage, idx, c); var seg := c.store.segments[idx];
      var reply := env.generate(stage, idx, StageInput(stage, seg), c.history);
      NeedsGeneration(env, stage, seg) ==>
        && (reply.Failure? ==> r.Abort? && r.err == SegmentFailed(idx, CallFailed(idx + 1, stage, reply.error)))
        && (reply.Success? ==> Output(stage, After(r).segments[idx]) == reply.value)
        && (r.Abort? && r.err.SegmentFailed? && r.err.cause.CallFailed? ==> reply.Failure?)
  {
    if NeedsGeneration(env, stage, c.store.segments[idx]) {
      GenerateReply(env, stage, idx, c.(store := Mark(c.store, idx, stage)));
    }
  }

  /** A step that goes on leaves its segment settled for the stage. */
  lemma VisitSettled(env: Env, stage: Stage, idx: nat, c: Cursor)
    requires idx < |c.store.segments|
    ensures var r := Visit(env, stage, idx, c);
      r.Next? ==> Settled(env, stage, idx, c.store.segments[idx], r.cursor.store.segments[idx])
  {
    var seg := c.store.segments[idx];
    var r := Visit(env, stage, idx, c);
    if NeedsGeneration(env, stage, seg) && r.Next? {
      var input := StageInput(stage, seg);
      GenerateReply(env, stage, idx, c.(store := Mark(c.store, idx, stage)));
      assert env.generate(stage, idx, input, c.history) == Success(Output(stage, r.cursor.store.segments[idx]));
    }
  }

  /** The step touches only segment `idx`, writes exactly one progress value, and only
      appends to the calls, the snapshots and the audit log. */
  lemma VisitFrame(env: Env, stage: Stage, idx: nat, c: Cursor)
    requires idx < |c.store.segments|
    ensures var r := Visit(env, stage, idx, c);
      && (forall j :: 0 <= j < |c.store.segments| && j != idx ==> After(r).segments[j] == c.store.segments[j])
      && After(r).progressLog == c.store.progressLog + [Progress(idx, |c.store.segments|, stage)]
      && SameRunIdentity(After(r).run, c.store.run) && After(r).run.currentStage == c.store.run.currentStage
      && After(r).releases == c.store.releases
      && |c.store.calls| <= |After(r).calls| <= |c.store.calls| + 1
      && After(r).calls[..|c.store.calls|] == c.store.calls
      && |c.store.snapshots| <= |After(r).snapshots| <= |c.store.snapshots| + 1
      && After(r).snapshots[..|c.store.snapshots|] == c.store.snapshots
      && (UniqueKeys(c.store.changes) ==> UniqueKeys(After(r).changes))
  {
    VisitOthers(env, stage, idx, c);
    VisitProgress(env, stage, idx, c);
    VisitRun(env, stage, idx, c);
    VisitTraces(env, stage, idx, c);
    VisitKeys(env, stage, idx, c);
  }

  /** The step touches no segment but its own. */
  lemma VisitOthers(env: Env, stage: Stage, idx: nat, c: Cursor)
    requires idx < |c.store.segments|
    ensures var r := Visit(env, stage, idx, c);
      forall j :: 0 <= j < |c.store.segments| && j != idx ==> After(r).segments[j] == c.store.segments[j]
  {
  }

  /** One step writes exactly the progress of its position. */
  lemma VisitProgress(env: Env, stage: Stage, idx: nat, c: Cursor)
    requires idx < |c.store.segments|
    ensures After(Visit(env, stage, idx, c)).progressLog == c.store.progressLog + [Progress(idx, |c.store.segments|, stage)]
  {
  }

  /** The step never writes the run's identity, its current stage or the gate counter. */
  lemma VisitRun(env: Env, stage: Stage, idx: nat, c: Cursor)
    requires idx < |c.store.segments|
    ensures var r := Visit(env, stage, idx, c);
      && SameRunIdentity(After(r).run, c.store.run) && After(r).run.currentStage == c.store.run.currentStage
      && After(r).releases == c.store.releases
  {
  }

  /** The step appends at most one request and at most one snapshot. */
  lemma VisitTraces(env: Env, stage: Stage, idx: nat, c: Cursor)
    requires idx < |c.store.segments|
    ensures var r := Visit(env, stage, idx, c);
      && |c.store.calls| <= |After(r).calls| <= |c.store.calls| + 1
      && After(r).calls[..|c.store.calls|] == c.store.calls
      && |c.store.snapshots| <= |After(r).snapshots| <= |c.store.snapshots| + 1
      && After(r).snapshots[..|c.store.snapshots|] == c.store.snapshots
  {
  }

  /** The step keeps the audit log free of duplicate keys. */
  lemma VisitKeys(env: Env, stage: Stage, idx: nat, c: Cursor)
    requires idx < |c.store.segments|
    ensures UniqueKeys(c.store.changes) ==> UniqueKeys(After(Visit(env, stage, idx, c)).changes)
  {
  }

  /** One generative call exactly when the segment needs one, on the stage's input text:
      the original for the polish stages, the polished text for enhance. */
  lemma VisitCalls(env: Env, stage: Stage, idx: nat, c: Cursor)
    requires idx < |c.store.segments|
    ensures var r := Visit(env, stage, idx, c); var seg := c.store.segments[idx];
      && (|After(r).calls| == |c.store.calls| + 1 <==> NeedsGeneration(env, stage, seg))
      && (|After(r).calls| == |c.store.calls| + 1 ==>
            After(r).calls[|c.store.calls|] == AiCall(stage, idx, StageInput(stage, seg)))
  {
  }

  /** The skip, enhance-title and title paths: no call, no audit entry, no snapshot, and the
      segment becomes what the matching rule says. */
  lemma VisitSkips(env: Env, stage: Stage, idx: nat, c: Cursor)
    requires idx < |c.store.segments|
    ensures var r := Visit(env, stage, idx, c); var seg := c.store.segments[idx];
      && (!NeedsGeneration(env, stage, seg) ==>
            && r.Next?
            && After(r).snapshots == c.store.snapshots && After(r).changes == c.store.changes
            && r.cursor.history == c.history && r.cursor.weight == c.weight
            && r.cursor.store.run.failedIndex == c.store.run.failedIndex)
      && (Output(stage, seg) != "" ==> After(r).segments == c.store.segments)
      && (stage == Enhance && seg.isTitle && seg.enhanced == "" ==>
            After(r).segments[idx] == seg.(enhanced := if seg.polished != "" then seg.polished else seg.original,
                                           status := SegmentStatus.Completed))
      && (Output(stage, seg) == "" && !(stage == Enhance && seg.isTitle)
          && env.countLength(seg.original) < SkipThreshold(env) ==>
            After(r).segments[idx] == AsTitle(seg, stage))
  {
  }

  /** A step that does not abort leaves the segment done with the stage and settled (holding
      a reply of the service if it needed one), the checkpoint untouched and the running weight
      equal to the recount of the history. */
  lemma VisitSuccess(env: Env, stage: Stage, idx: nat, c: Cursor)
    requires idx < |c.store.segments|
    ensures var r := Visit(env, stage, idx, c);
      r.Next? ==>
        && Handled(stage, r.cursor.store.segments[idx])
        && Settled(env, stage, idx, c.store.segments[idx], r.cursor.store.segments[idx])
        && r.cursor.store.run.failedIndex == c.store.run.failedIndex
        && r.cursor.store.run.errorMessage == c.store.run.errorMessage
        && (c.weight == Weight(c.history, env.countWeight) ==> r.cursor.weight == Weight(r.cursor.history, env.countWeight))
        && (|r.cursor.store.snapshots| > |c.store.snapshots| ==>
              r.cursor.store.snapshots[|c.store.snapshots|] == Save(r.cursor.history, stage, r.cursor.weight))
  {
    VisitSettled(env, stage, idx, c);
    if NeedsGeneration(env, stage, c.store.segments[idx]) {
      GenerateSuccess(env, stage, idx, c.(store := Mark(c.store, idx, stage)));
    }
  }

  /** A step that aborts had to call the generative service for this segment, marks the
      segment failed, and points the checkpoint and the error at it; the segment is stopped:
      refused by the service with the message of the call error, or holding the reply when
      the compression raised. */
  lemma VisitFailure(env: Env, stage: Stage, idx: nat, c: Cursor)
    requires idx < |c.store.segments|
    ensures var r := Visit(env, stage, idx, c);
      r.Abort? ==>
        && NeedsGeneration(env, stage, c.store.segments[idx])
        && r.err == SegmentFailed(idx, r.err.cause)
        && (r.err.cause.CallFailed? || r.err.cause.Raised?)
        && (r.err.cause.CallFailed? ==> r.err.cause.segmentNumber == idx + 1 && r.err.cause.stage == stage)
        && r.store.run.failedIndex == Some(idx)
        && r.store.run.errorMessage == Some(r.err.cause)
        && r.store.segments[idx].status == SegmentStatus.Failed
        && r.store.snapshots == c.store.snapshots
        && Stopped(env, stage, idx, c.store.segments[idx], r.store.segments[idx], r.err.cause)
  {
    var seg := c.store.segments[idx];
    var r := Visit(env, stage, idx, c);
    if NeedsGeneration(env, stage, seg) {
      GenerateFailure(env, stage, idx, c.(store := Mark(c.store, idx, stage)));
      GenerateReply(env, stage, idx, c.(store := Mark(c.store, idx, stage)));
      if r.Abort? {
        var input := StageInput(stage, seg);
        var reply := env.generate(stage, idx, input, c.history);
        assert reply.Failure? ==> env.generate(stage, idx, input, c.history) == Failure(r.err.cause.message);
        assert reply.Success? ==> env.generate(stage, idx, input, c.history) == Success(Output(stage, r.store.segments[idx]));
      }
    }
  }

  /** The loop of `_process_stage` from position `idx` to the end, stopping at the first failure. */
  function Loop(env: Env, stage: Stage, idx: nat, c: Cursor): (r: Outcome)
    ensures SameSegments(r.store.segments, c.store.segments)
    decreases |c.store.segments| - idx
  {
    if idx >= |c.store.segments| then Outcome(c.store, None)
    else
      match Visit(env, stage, idx, c)
      case Next(c') => Loop(env, stage, idx + 1, c')
      case Abort(s, e) => Outcome(s, Some(e))
  }

  lemma PrefixOfPrefix<T>(a: seq<T>, b: seq<T>, c: seq<T>)
    requires |a| <= |b| <= |c| && c[..|b|] == b && b[..|a|] == a
    ensures c[..|a|] == a
  {
    assert c[..|a|] == c[..|b|][..|a|];
  }

  /** The loop only appends to the traces, never writes the run's identity, the gate counter
      or the segments before `idx`, keeps the audit log free of duplicate keys, and leaves
      the checkpoint alone unless it fails. */
  lemma LoopFrame(env: Env, stage: Stage, idx: nat, c: Cursor)
    ensures var r := Loop(env, stage, idx, c);
      && (forall j :: 0 <= j < idx && j < |c.store.segments| ==> r.store.segments[j] == c.store.segments[j])
      && SameRunIdentity(r.store.run, c.store.run) && r.store.run.currentStage == c.store.run.currentStage
      && r.store.releases == c.store.releases
      && |c.store.calls| <= |r.store.calls| && r.store.calls[..|c.store.calls|] == c.store.calls
      && |c.store.progressLog| <= |r.store.progressLog| && r.store.progressLog[..|c.store.progressLog|] == c.store.progressLog
      && |c.store.snapshots| <= |r.store.snapshots| && r.store.snapshots[..|c.store.snapshots|] == c.store.snapshots
      && (UniqueKeys(c.store.changes) ==> UniqueKeys(r.store.changes))
      && (r.err.None? ==> r.store.run.failedIndex == c.store.run.failedIndex)
      && (r.err.None? ==> r.store.run.errorMessage == c.store.run.errorMessage)
  {
    LoopDone(env, stage, idx, c);
    LoopRun(env, stage, idx, c);
    LoopTraces(env, stage, idx, c);
    LoopKeys(env, stage, idx, c);
  }

  /** The loop never writes the segments before `idx`. */
  lemma {:induction false} LoopDone(env: Env, stage: Stage, idx: nat, c: Cursor)
    ensures var r := Loop(env, stage, idx, c);
      forall j :: 0 <= j < idx && j < |c.store.segments| ==> r.store.segments[j] == c.store.segments[j]
    decreases |c.store.segments| - idx
  {
    if idx >= |c.store.segments| {
      assert Loop(env, stage, idx, c) == Outcome(c.store, None);
      return;
    }
    var v := Visit(env, stage, idx, c);
    VisitOthers(env, stage, idx, c);
    LoopUnfold(env, stage, idx, c);
    if v.Next? {
      LoopDone(env, stage, idx + 1, v.cursor);
      DoneStep(c.store.segments, v.cursor.store.segments, Loop(env, stage, idx + 1, v.cursor).store.segments, idx);
    }
  }

  /** One step of the loop: the visit, then either the rest of the loop or the abort. */
  lemma LoopUnfold(env: Env, stage: Stage, idx: nat, c: Cursor)
    requires idx < |c.store.segments|
    ensures var v := Visit(env, stage, idx, c);
      Loop(env, stage, idx, c) == if v.Next? then Loop(env, stage, idx + 1, v.cursor) else Outcome(v.store, Some(v.err))
  {
  }

  lemma DoneStep(segs0: seq<Segment>, segs1: seq<Segment>, segs2: seq<Segment>, idx: nat)
    requires |segs0| == |segs1| == |segs2|
    requires forall j :: 0 <= j < |segs0| && j != idx ==> segs1[j] == segs0[j]
    requires forall j :: 0 <= j < idx + 1 && j < |segs1| ==> segs2[j] == segs1[j]
    ensures forall j :: 0 <= j < idx && j < |segs0| ==> segs2[j] == segs0[j]
  {
  }

  /** The loop never writes the run's identity, its current stage or the gate counter, and
      leaves the checkpoint and the error alone unless it fails. */
  lemma {:induction false} LoopRun(env: Env, stage: Stage, idx: nat, c: Cursor)
    ensures var r := Loop(env, stage, idx, c);
      && SameRunIdentity(r.store.run, c.store.run) && r.store.run.currentStage == c.store.run.currentStage
      && r.store.releases == c.store.releases
      && (r.err.None? ==> r.store.run.failedIndex == c.store.run.failedIndex)
      && (r.err.None? ==> r.store.run.errorMessage == c.store.run.errorMessage)
    decreases |c.store.segments| - idx
  {
    if idx >= |c.store.segments| {
      assert Loop(env, stage, idx, c) == Outcome(c.store, None);
      return;
    }
    VisitRun(env, stage, idx, c);
    VisitSuccess(env, stage, idx, c);
    var v := Visit(env, stage, idx, c);
    LoopUnfold(env, stage, idx, c);
    if v.Next? {
      var c' := v.cursor;
      LoopRun(env, stage, idx + 1, c');
    }
  }

  /** The loop only appends to the requests, the progress values and the snapshots. */
  lemma {:induction false} LoopTraces(env: Env, stage: Stage, idx: nat, c: Cursor)
    ensures var r := Loop(env, stage, idx, c);
      && |c.store.calls| <= |r.store.calls| && r.store.calls[..|c.store.calls|] == c.store.calls
      && |c.store.progressLog| <= |r.store.progressLog| && r.store.progressLog[..|c.store.progressLog|] == c.store.progressLog
      && |c.store.snapshots| <= |r.store.snapshots| && r.store.snapshots[..|c.store.snapshots|] == c.store.snapshots
    decreases |c.store.segments| - idx
  {
    if idx >= |c.store.segments| {
      assert Loop(env, stage, idx, c) == Outcome(c.store, None);
      return;
    }
    VisitTraces(env, stage, idx, c);
    VisitProgress(env, stage, idx, c);
    var v := Visit(env, stage, idx, c);
    LoopUnfold(env, stage, idx, c);
    if v.Next? {
      var c' := v.cursor;
      LoopTraces(env, stage, idx + 1, c');
      var r := Loop(env, stage, idx + 1, c');
      PrefixOfPrefix(c.store.calls, c'.store.calls, r.store.calls);
      PrefixOfPrefix(c.store.progressLog, c'.store.progressLog, r.store.progressLog);
      PrefixOfPrefix(c.store.snapshots, c'.store.snapshots, r.store.snapshots);
    }
  }

  /** The loop keeps the audit log free of duplicate keys. */
  lemma {:induction false} LoopKeys(env: Env, stage: Stage, idx: nat, c: Cursor)
    ensures UniqueKeys(c.store.changes) ==> UniqueKeys(Loop(env, stage, idx, c).store.changes)
    decreases |c.store.segments| - idx
  {
    if idx >= |c.store.segments| {
      assert Loop(env, stage, idx, c) == Outcome(c.store, None);
      return;
    }
    VisitKeys(env, stage, idx, c);
    var v := Visit(env, stage, idx, c);
    LoopUnfold(env, stage, idx, c);
    if v.Next? {
      var c' := v.cursor;
      LoopKeys(env, stage, idx + 1, c');
    }
  }

  /** Calls from trace position `m` on are all for `stage`, for positions from `idx` on that
      needed the generative service in `segs`, in strictly increasing position order. */
  predicate CallsFrom(env: Env, stage: Stage, idx: nat, segs: seq<Segment>, calls: seq<AiCall>, m: nat)
    requires m <= |calls|
  {
    && (forall k :: m <= k < |calls| ==>
          && calls[k].stage == stage
          && idx <= calls[k].position < |segs|
          && NeedsGeneration(env, stage, segs[calls[k].position]))
    && (forall k1, k2 :: m <= k1 < k2 < |calls| ==> calls[k1].position < calls[k2].position)
  }

  lemma CallsStep(env: Env, stage: Stage, idx: nat, segs0: seq<Segment>, segs1: seq<Segment>,
                  calls0: seq<AiCall>, calls1: seq<AiCall>, calls2: seq<AiCall>)
    requires idx < |segs0| == |segs1|
    requires forall j :: 0 <= j < |segs0| && j != idx ==> segs1[j] == segs0[j]
    requires |calls0| <= |calls1| <= |calls0| + 1 && calls1[..|calls0|] == calls0
    requires |calls1| == |calls0| + 1 ==>
      calls1[|calls0|].stage == stage && calls1[|calls0|].position == idx && NeedsGeneration(env, stage, segs0[idx])
    requires |calls1| <= |calls2| && calls2[..|calls1|] == calls1
    requires CallsFrom(env, stage, idx + 1, segs1, calls2, |calls1|)
    ensures CallsFrom(env, stage, idx, segs0, calls2, |calls0|)
  {
    forall k | |calls0| <= k < |calls2|
      ensures && calls2[k].stage == stage
              && idx <= calls2[k].position < |segs0|
              && NeedsGeneration(env, stage, segs0[calls2[k].position])
    {
      if k < |calls1| {
        assert calls2[k] == calls1[k];
      } else {
        assert segs1[calls2[k].position] == segs0[calls2[k].position];
      }
    }
    forall k1, k2 | |calls0| <= k1 < k2 < |calls2|
      ensures calls2[k1].position < calls2[k2].position
    {
      if k1 < |calls1| {
        assert calls2[k1] == calls1[k1];
      }
    }
  }

  /** The skip rule, over the whole loop: every generative call made from position `idx` on
      is for this stage, for a position at or after `idx`, and for a segment that needed it
      when the loop began (its output for the stage unset, not a title met by enhance, not
      short enough to be a title). Positions strictly increase, so no segment is sent twice. */
  lemma {:induction false} LoopCalls(env: Env, stage: Stage, idx: nat, c: Cursor)
    ensures var r := Loop(env, stage, idx, c);
      && |c.store.calls| <= |r.store.calls|
      && CallsFrom(env, stage, idx, c.store.segments, r.store.calls, |c.store.calls|)
    decreases |c.store.segments| - idx
  {
    if idx >= |c.store.segments| {
      assert Loop(env, stage, idx, c) == Outcome(c.store, None);
      return;
    }
    if idx < |c.store.segments| {
      VisitOthers(env, stage, idx, c);
      VisitTraces(env, stage, idx, c);
      VisitCalls(env, stage, idx, c);
      var v := Visit(env, stage, idx, c);
      LoopUnfold(env, stage, idx, c);
      if v.Next? {
        var c' := v.cursor;
        LoopCalls(env, stage, idx + 1, c');
        LoopTraces(env, stage, idx + 1, c');
        CallsStep(env, stage, idx, c.store.segments, c'.store.segments,
                  c.store.calls, c'.store.calls, Loop(env, stage, idx + 1, c').store.calls);
      }
    }
  }

  /** Progress values from trace position `m` on are below 100 and never decrease. */
  predicate RisingFrom(log: seq<real>, m: nat)
    requires m <= |log|
  {
    && (forall k :: m <= k < |log| ==> 0.0 <= log[k] < 100.0)
    && (forall k1, k2 :: m <= k1 <= k2 < |log| ==> log[k1] <= log[k2])
  }

  /** From trace position `m` on, the values are the progress of consecutive positions `idx`,
      `idx + 1`, ... of a stage over `n` segments. */
  predicate WritesFrom(log: seq<real>, m: nat, idx: nat, n: nat, stage: Stage)
    decreases |log| - m
  {
    m >= |log| || (idx < n && log[m] == Progress(idx, n, stage) && WritesFrom(log, m + 1, idx + 1, n, stage))
  }

  /** Position by position: trace entry `k` is the progress of position `idx + (k - m)`. */
  lemma {:induction false} WritesAt(log: seq<real>, m: nat, idx: nat, n: nat, stage: Stage)
    requires m <= |log| && WritesFrom(log, m, idx, n, stage)
    ensures m == |log| || idx + (|log| - m) <= n
    ensures forall k :: m <= k < |log| ==> log[k] == Progress(idx + (k - m), n, stage)
    decreases |log| - m
  {
    if m < |log| {
      WritesAt(log, m + 1, idx + 1, n, stage);
    }
  }

  lemma WritesStep(log0: seq<real>, log1: seq<real>, log2: seq<real>, idx: nat, n: nat, stage: Stage)
    requires idx < n && log1 == log0 + [Progress(idx, n, stage)]
    requires |log1| <= |log2| && log2[..|log1|] == log1 && WritesFrom(log2, |log1|, idx + 1, n, stage)
    ensures WritesFrom(log2, |log0|, idx, n, stage)
  {
    assert log2[|log0|] == log1[|log0|];
  }

  /** The progress of consecutive positions rises, so such a trace rises too. */
  lemma WritesRise(log: seq<real>, m: nat, idx: nat, n: nat, stage: Stage)
    requires m <= |log| && WritesFrom(log, m, idx, n, stage)
    ensures RisingFrom(log, m)
    ensures |log| > m ==> idx < n && log[m] == Progress(idx, n, stage)
  {
    WritesAt(log, m, idx, n, stage);
    forall k1, k2 | m <= k1 < k2 < |log|
      ensures log[k1] < log[k2]
    {
      ProgressIncreases(idx + (k1 - m), idx + (k2 - m), n, stage);
    }
  }

  /** The loop writes the progress of each position it visits, in order: the values from the
      loop's first trace position on are those of positions `idx`, `idx + 1`, .... */
  lemma {:induction false} LoopProgressValues(env: Env, stage: Stage, idx: nat, c: Cursor)
    ensures var r := Loop(env, stage, idx, c); var m := |c.store.progressLog|;
      && m <= |r.store.progressLog|
      && WritesFrom(r.store.progressLog, m, idx, |c.store.segments|, stage)
    decreases |c.store.segments| - idx
  {
    var n := |c.store.segments|;
    if idx >= n {
      assert Loop(env, stage, idx, c) == Outcome(c.store, None);
      return;
    }
    VisitProgress(env, stage, idx, c);
    var v := Visit(env, stage, idx, c);
    LoopUnfold(env, stage, idx, c);
    if v.Next? {
      LoopProgressValues(env, stage, idx + 1, v.cursor);
      LoopTraces(env, stage, idx + 1, v.cursor);
      WritesStep(c.store.progressLog, v.cursor.store.progressLog,
                 Loop(env, stage, idx + 1, v.cursor).store.progressLog, idx, n, stage);
    } else {
      WritesStep(c.store.progressLog, v.store.progressLog, v.store.progressLog, idx, n, stage);
    }
  }

  /** The progress values the loop writes start at the value of its first position, stay
      below 100 and never decrease. */
  lemma LoopProgress(env: Env, stage: Stage, idx: nat, c: Cursor)
    ensures var r := Loop(env, stage, idx, c); var m := |c.store.progressLog|; var n := |c.store.segments|;
      && m <= |r.store.progressLog|
      && RisingFrom(r.store.progressLog, m)
      && (|r.store.progressLog| > m ==> idx < n && r.store.progressLog[m] == Progress(idx, n, stage))
  {
    var n := |c.store.segments|;
    LoopProgressValues(env, stage, idx, c);
    var r := Loop(env, stage, idx, c);
    WritesRise(r.store.progressLog, |c.store.progressLog|, idx, n, stage);
  }

  /** A loop that fails stops at a position that needed the generative service: that segment
      is failed, the checkpoint and the error point at it, and it is stopped: refused by the
      service with the message of the call error, or holding the reply when the compression
      raised. */
  lemma LoopFailure(env: Env, stage: Stage, idx: nat, c: Cursor)
    ensures var r := Loop(env, stage, idx, c); var n := |c.store.segments|;
      r.err.Some? ==>
        var e := r.err.value;
        && e.SegmentFailed?
        && idx <= e.index < n
        && NeedsGeneration(env, stage, c.store.segments[e.index])
        && r.store.run.failedIndex == Some(e.index as int)
        && r.store.run.errorMessage == Some(e.cause)
        && r.store.segments[e.index].status == SegmentStatus.Failed
        && (e.cause.CallFailed? ==> e.cause.segmentNumber == e.index + 1 && e.cause.stage == stage)
        && Stopped(env, stage, e.index, c.store.segments[e.index], r.store.segments[e.index], e.cause)
  {
    LoopFailsAt(env, stage, idx, c);
    LoopStops(env, stage, idx, c);
  }

  lemma {:induction false} LoopFailsAt(env: Env, stage: Stage, idx: nat, c: Cursor)
    ensures var r := Loop(env, stage, idx, c); var n := |c.store.segments|;
      r.err.Some? ==>
        var e := r.err.value;
        && e.SegmentFailed?
        && idx <= e.index < n
        && NeedsGeneration(env, stage, c.store.segments[e.index])
        && r.store.run.failedIndex == Some(e.index as int)
        && r.store.run.errorMessage == Some(e.cause)
        && r.store.segments[e.index].status == SegmentStatus.Failed
        && (e.cause.CallFailed? ==> e.cause.segmentNumber == e.index + 1 && e.cause.stage == stage)
    decreases |c.store.segments| - idx
  {
    if idx >= |c.store.segments| {
      assert Loop(env, stage, idx, c) == Outcome(c.store, None);
      return;
    }
    if idx < |c.store.segments| {
      VisitOthers(env, stage, idx, c);
      VisitFailure(env, stage, idx, c);
      var v := Visit(env, stage, idx, c);
      LoopUnfold(env, stage, idx, c);
      if v.Next? {
        var c' := v.cursor;
        LoopFailsAt(env, stage, idx + 1, c');
        var r := Loop(env, stage, idx + 1, c');
        if r.err.Some? {
          assert c'.store.segments[r.err.value.index] == c.store.segments[r.err.value.index];
        }
      }
    }
  }

  /** A loop that fails at position `p` has not touched any later segment nor sent any later
      position to the generative service. */
  lemma StopsStep(stage: Stage, idx: nat, segs0: seq<Segment>, segs1: seq<Segment>, segs2: seq<Segment>,
                  calls0: seq<AiCall>, calls1: seq<AiCall>, calls2: seq<AiCall>, p: nat)
    requires idx < p && |segs0| == |segs1| == |segs2|
    requires forall j :: 0 <= j < |segs0| && j != idx ==> segs1[j] == segs0[j]
    requires forall j :: p < j < |segs0| ==> segs2[j] == segs1[j]
    requires |calls0| <= |calls1| <= |calls0| + 1 && calls1[..|calls0|] == calls0
    requires |calls1| == |calls0| + 1 ==> calls1[|calls0|].position == idx
    requires |calls1| <= |calls2| && calls2[..|calls1|] == calls1
    requires forall k :: |calls1| <= k < |calls2| ==> calls2[k].position <= p
    ensures forall j :: p < j < |segs0| ==> segs2[j] == segs0[j]
    ensures forall k :: |calls0| <= k < |calls2| ==> calls2[k].position <= p
  {
    forall k | |calls0| <= k < |calls2|
      ensures calls2[k].position <= p
    {
      if k < |calls1| {
        assert calls2[k] == calls1[k];
      }
    }
  }

  lemma {:induction false} LoopFailureStops(env: Env, stage: Stage, idx: nat, c: Cursor)
    ensures var r := Loop(env, stage, idx, c); var n := |c.store.segments|;
      r.err.Some? && r.err.value.SegmentFailed? ==>
        var p := r.err.value.index;
        && (forall j :: p < j < n ==> r.store.segments[j] == c.store.segments[j])
        && |c.store.calls| <= |r.store.calls|
        && (forall k :: |c.store.calls| <= k < |r.store.calls| ==> r.store.calls[k].position <= p)
    decreases |c.store.segments| - idx
  {
    if idx >= |c.store.segments| {
      assert Loop(env, stage, idx, c) == Outcome(c.store, None);
      return;
    }
    if idx < |c.store.segments| {
      VisitOthers(env, stage, idx, c);
      VisitTraces(env, stage, idx, c);
      VisitCalls(env, stage, idx, c);
      VisitFailure(env, stage, idx, c);
      var v := Visit(env, stage, idx, c);
      LoopUnfold(env, stage, idx, c);
      if v.Next? {
        var c' := v.cursor;
        LoopFailureStops(env, stage, idx + 1, c');
        LoopFailsAt(env, stage, idx + 1, c');
        LoopTraces(env, stage, idx + 1, c');
        var r := Loop(env, stage, idx + 1, c');
        if r.err.Some? && r.err.value.SegmentFailed? {
          StopsStep(stage, idx, c.store.segments, c'.store.segments, r.store.segments,
                    c.store.calls, c'.store.calls, r.store.calls, r.err.value.index);
        }
      }
    }
  }

  /** A loop that completes leaves every segment from position `idx` on done with the stage
      and settled: a segment that needed the service holds a reply of the service to the
      request for it, any other is what the skip rules make of it. */
  lemma {:induction false} LoopSuccess(env: Env, stage: Stage, idx: nat, c: Cursor)
    ensures var r := Loop(env, stage, idx, c);
      r.err.None? ==>
        forall j :: idx <= j < |c.store.segments| ==>
          Handled(stage, r.store.segments[j]) && Settled(env, stage, j, c.store.segments[j], r.store.segments[j])
    decreases |c.store.segments| - idx
  {
    if idx >= |c.store.segments| {
      assert Loop(env, stage, idx, c) == Outcome(c.store, None);
      return;
    }
    if idx < |c.store.segments| {
      VisitSettled(env, stage, idx, c);
      VisitOthers(env, stage, idx, c);
      var v := Visit(env, stage, idx, c);
      LoopUnfold(env, stage, idx, c);
      if v.Next? {
        var c' := v.cursor;
        LoopSuccess(env, stage, idx + 1, c');
        LoopDone(env, stage, idx + 1, c');
        var r := Loop(env, stage, idx + 1, c');
        if r.err.None? {
          SettledHandled(env, stage, idx, c.store.segments[idx], r.store.segments[idx]);
          SettledStep(env, stage, idx, |c.store.segments|, c.store.segments, c'.store.segments, r.store.segments);
        }
      }
    }
  }

  /** One step of the loop settles its own position and leaves the later ones as it found them. */
  lemma SettledStep(env: Env, stage: Stage, idx: nat, p: nat, segs0: seq<Segment>, segs1: seq<Segment>, segs2: seq<Segment>)
    requires idx < p <= |segs0| && |segs0| == |segs1| == |segs2|
    requires forall j :: 0 <= j < |segs0| && j != idx ==> segs1[j] == segs0[j]
    requires Settled(env, stage, idx, segs0[idx], segs1[idx]) && segs2[idx] == segs1[idx]
    requires forall j :: idx + 1 <= j < p ==> Settled(env, stage, j, segs1[j], segs2[j])
    ensures forall j :: idx <= j < p ==> Settled(env, stage, j, segs0[j], segs2[j])
  {
    forall j | idx < j < p
      ensures Settled(env, stage, j, segs0[j], segs2[j])
    {
      assert segs1[j] == segs0[j];
    }
  }

  lemma StoppedStep(env: Env, stage: Stage, idx: nat, p: nat, segs0: seq<Segment>, segs1: seq<Segment>,
                    segs2: seq<Segment>, cause: Error)
    requires idx < p < |segs0| && |segs0| == |segs1| == |segs2|
    requires forall j :: 0 <= j < |segs0| && j != idx ==> segs1[j] == segs0[j]
    requires Settled(env, stage, idx, segs0[idx], segs1[idx]) && segs2[idx] == segs1[idx]
    requires forall j :: idx + 1 <= j < p ==> Settled(env, stage, j, segs1[j], segs2[j])
    requires Stopped(env, stage, p, segs1[p], segs2[p], cause)
    ensures forall j :: idx <= j < p ==> Settled(env, stage, j, segs0[j], segs2[j])
    ensures Stopped(env, stage, p, segs0[p], segs2[p], cause)
  {
    SettledStep(env, stage, idx, p, segs0, segs1, segs2);
    assert segs1[p] == segs0[p];
  }

  /** A loop that fails at position `p` has settled every segment from `idx` up to `p`, and
      leaves the segment at `p` stopped: refused by the service with the message of the call
      error, or holding the reply when the compression raised. */
  lemma {:induction false} LoopStops(env: Env, stage: Stage, idx: nat, c: Cursor)
    ensures var r := Loop(env, stage, idx, c); var n := |c.store.segments|;
      r.err.Some? ==>
        var e := r.err.value;
        && e.SegmentFailed? && idx <= e.index < n
        && Stopped(env, stage, e.index, c.store.segments[e.index], r.store.segments[e.index], e.cause)
        && forall j :: idx <= j < e.index ==> Settled(env, stage, j, c.store.segments[j], r.store.segments[j])
    decreases |c.store.segments| - idx
  {
    if idx >= |c.store.segments| {
      assert Loop(env, stage, idx, c) == Outcome(c.store, None);
      return;
    }
    if idx < |c.store.segments| {
      VisitSettled(env, stage, idx, c);
      VisitFailure(env, stage, idx, c);
      VisitOthers(env, stage, idx, c);
      var v := Visit(env, stage, idx, c);
      LoopUnfold(env, stage, idx, c);
      if v.Next? {
        var c' := v.cursor;
        LoopStops(env, stage, idx + 1, c');
        LoopDone(env, stage, idx + 1, c');
        var r := Loop(env, stage, idx + 1, c');
        if r.err.Some? {
          var p := r.err.value.index;
          StoppedStep(env, stage, idx, p, c.store.segments, c'.store.segments, r.store.segments, r.err.value.cause);
        }
      }
    }
  }

  /** Snapshots from trace position `m` on agree with their own turns. */
  predicate ConsistentFrom(snaps: seq<Snapshot>, m: nat, stage: Stage, count: string -> int)
    requires m <= |snaps|
  {
    forall k :: m <= k < |snaps| ==> Consistent(snaps[k], stage, count)
  }

  lemma ConsistentStep(snaps0: seq<Snapshot>, snaps1: seq<Snapshot>, snaps2: seq<Snapshot>, stage: Stage, count: string -> int)
    requires |snaps0| <= |snaps1| <= |snaps0| + 1 && snaps1[..|snaps0|] == snaps0
    requires |snaps1| > |snaps0| ==> Consistent(snaps1[|snaps0|], stage, count)
    requires |snaps1| <= |snaps2| && snaps2[..|snaps1|] == snaps1
    requires ConsistentFrom(snaps2, |snaps1|, stage, count)
    ensures ConsistentFrom(snaps2, |snaps0|, stage, count)
  {
    forall k | |snaps0| <= k < |snaps2|
      ensures Consistent(snaps2[k], stage, count)
    {
      if k < |snaps1| {
        assert snaps2[k] == snaps1[k];
      }
    }
  }

  /** Started from a consistent running weight, every snapshot the loop saves carries the
      recount of its own turns and is flagged compressed exactly when it is one system turn. */
  lemma {:induction false} LoopSnapshots(env: Env, stage: Stage, idx: nat, c: Cursor)
    requires c.weight == Weight(c.history, env.countWeight)
    ensures var r := Loop(env, stage, idx, c);
      && |c.store.snapshots| <= |r.store.snapshots|
      && ConsistentFrom(r.store.snapshots, |c.store.snapshots|, stage, env.countWeight)
    decreases |c.store.segments| - idx
  {
    if idx >= |c.store.segments| {
      assert Loop(env, stage, idx, c) == Outcome(c.store, None);
      return;
    }
    if idx < |c.store.segments| {
      VisitTraces(env, stage, idx, c);
      VisitSuccess(env, stage, idx, c);
      VisitFailure(env, stage, idx, c);
      var v := Visit(env, stage, idx, c);
      LoopUnfold(env, stage, idx, c);
      if v.Next? {
        var c' := v.cursor;
        LoopSnapshots(env, stage, idx + 1, c');
        LoopTraces(env, stage, idx + 1, c');
        ConsistentStep(c.store.snapshots, c'.store.snapshots, Loop(env, stage, idx + 1, c').store.snapshots,
                       stage, env.countWeight);
      }
    }
  }

  /** `_process_stage(stage)`: record the stage, rebuild the history from the outputs
      already present, and run the loop from the checkpoint. */
  function ProcessStage(env: Env, stage: Stage, s: Store): (r: Outcome)
    ensures SameSegments(r.store.segments, s.segments)
  {
    Loop(env, stage, StartIndex(s.run.failedIndex), Begin(env, stage, s))
  }

  /** The loop state a stage starts from. */
  function Begin(env: Env, stage: Stage, s: Store): (c: Cursor)
    ensures c.weight == Weight(c.history, env.countWeight)
  {
    var h := InitialHistory(s.segments, stage);
    Cursor(s.(run := s.run.(currentStage := Some(stage))), h, Weight(h, env.countWeight))
  }

  /** The skip rule for a whole stage, from any checkpoint: every generative request the
      stage makes is for this stage, for a position at or after the start index, and for a
      segment whose output for the stage was unset, that is not a title met by enhance, and
      that is long enough not to be a title. No position is requested twice, so a segment
      already carrying the stage's output is never sent again. */
  lemma ProcessStageCalls(env: Env, stage: Stage, s: Store)
    ensures var r := ProcessStage(env, stage, s);
      && |s.calls| <= |r.store.calls| && r.store.calls[..|s.calls|] == s.calls
      && CallsFrom(env, stage, StartIndex(s.run.failedIndex), s.segments, r.store.calls, |s.calls|)
  {
    LoopCalls(env, stage, StartIndex(s.run.failedIndex), Begin(env, stage, s));
    LoopFrame(env, stage, StartIndex(s.run.failedIndex), Begin(env, stage, s));
  }

  /** A stage records itself as the run's current stage, leaves the run's identity, the gate
      counter and every segment before the start index alone, only appends to the traces,
      keeps the audit log free of duplicate keys, and writes the checkpoint only when it fails. */
  lemma ProcessStageFrame(env: Env, stage: Stage, s: Store)
    ensures var r := ProcessStage(env, stage, s); var start := StartIndex(s.run.failedIndex);
      && (forall j :: 0 <= j < start && j < |s.segments| ==> r.store.segments[j] == s.segments[j])
      && SameRunIdentity(r.store.run, s.run) && r.store.run.currentStage == Some(stage)
      && r.store.releases == s.releases
      && |s.progressLog| <= |r.store.progressLog| && r.store.progressLog[..|s.progressLog|] == s.progressLog
      && |s.snapshots| <= |r.store.snapshots| && r.store.snapshots[..|s.snapshots|] == s.snapshots
      && (UniqueKeys(s.changes) ==> UniqueKeys(r.store.changes))
      && (r.err.None? ==> r.store.run.failedIndex == s.run.failedIndex)
      && (r.err.None? ==> r.store.run.errorMessage == s.run.errorMessage)
  {
    LoopFrame(env, stage, StartIndex(s.run.failedIndex), Begin(env, stage, s));
  }

  /** The progress a stage writes starts at its start position's value, stays below 100 and
      never decreases. */
  lemma ProcessStageProgress(env: Env, stage: Stage, s: Store)
    ensures var r := ProcessStage(env, stage, s); var m := |s.progressLog|; var start := StartIndex(s.run.failedIndex);
      && m <= |r.store.progressLog|
      && RisingFrom(r.store.progressLog, m)
      && (|r.store.progressLog| > m ==> start < |s.segments| && r.store.progressLog[m] == Progress(start, |s.segments|, stage))
  {
    LoopProgress(env, stage, StartIndex(s.run.failedIndex), Begin(env, stage, s));
  }

  /** A failed stage names the position it stopped at, from the start index on: a segment that
      needed the generative service, now failed, with the checkpoint and the error pointing at
      it. The service refused that segment's request with the message of the call error, or
      answered it and the compression raised; every earlier position from the start index on
      is settled, no later segment was touched and no later position requested. */
  lemma ProcessStageFailure(env: Env, stage: Stage, s: Store)
    ensures var r := ProcessStage(env, stage, s); var n := |s.segments|; var start := StartIndex(s.run.failedIndex);
      r.err.Some? ==>
        var e := r.err.value;
        && e.SegmentFailed?
        && start <= e.index < n
        && NeedsGeneration(env, stage, s.segments[e.index])
        && r.store.run.failedIndex == Some(e.index as int)
        && r.store.run.errorMessage == Some(e.cause)
        && r.store.segments[e.index].status == SegmentStatus.Failed
        && (e.cause.CallFailed? ==> e.cause.segmentNumber == e.index + 1 && e.cause.stage == stage)
        && Stopped(env, stage, e.index, s.segments[e.index], r.store.segments[e.index], e.cause)
        && (forall j :: start <= j < e.index ==> Settled(env, stage, j, s.segments[j], r.store.segments[j]))
        && (forall j :: e.index < j < n ==> r.store.segments[j] == s.segments[j])
        && (forall k :: |s.calls| <= k < |r.store.calls| ==> r.store.calls[k].position <= e.index)
  {
    LoopFailure(env, stage, StartIndex(s.run.failedIndex), Begin(env, stage, s));
    LoopFailureStops(env, stage, StartIndex(s.run.failedIndex), Begin(env, stage, s));
    LoopStops(env, stage, StartIndex(s.run.failedIndex), Begin(env, stage, s));
  }

  /** A stage that completes leaves every segment from the start index on done with it and
      settled: each one that needed the service holds a reply of the service to the request for
      it in the stage's column. */
  lemma ProcessStageSuccess(env: Env, stage: Stage, s: Store)
    ensures var r := ProcessStage(env, stage, s);
      r.err.None? ==>
        forall j :: StartIndex(s.run.failedIndex) <= j < |s.segments| ==>
          Handled(stage, r.store.segments[j]) && Settled(env, stage, j, s.segments[j], r.store.segments[j])
  {
    LoopSuccess(env, stage, StartIndex(s.run.failedIndex), Begin(env, stage, s));
  }

  /** A stage cannot get past a segment that needs the service when the service refuses its
      request whatever the history: the stage fails there or earlier. */
  lemma ProcessStageRefused(env: Env, stage: Stage, s: Store, j: nat)
    requires StartIndex(s.run.failedIndex) <= j < |s.segments| && NeedsGeneration(env, stage, s.segments[j])
    requires forall h :: env.generate(stage, j, StageInput(stage, s.segments[j]), h).Failure?
    ensures var r := ProcessStage(env, stage, s);
      r.err.Some? && r.err.value.SegmentFailed? && r.err.value.index <= j
  {
    ProcessStageSuccess(env, stage, s);
    ProcessStageFailure(env, stage, s);
  }

  /** Every snapshot a stage saves is consistent with its own turns. */
  lemma ProcessStageSnapshots(env: Env, stage: Stage, s: Store)
    ensures var r := ProcessStage(env, stage, s);
      && |s.snapshots| <= |r.store.snapshots|
      && ConsistentFrom(r.store.snapshots, |s.snapshots|, stage, env.countWeight)
  {
    LoopSnapshots(env, stage, StartIndex(s.run.failedIndex), Begin(env, stage, s));
  }

  /** Every segment done with some stage in `a` is still done with it in `b`. */
  predicate KeepsHandled(a: seq<Segment>, b: seq<Segment>) {
    && |a| == |b|
    && forall j, st: Stage :: 0 <= j < |a| && Handled(st, a[j]) ==> Handled(st, b[j])
  }

  /** Every segment that the enhance stage would skip in `a` (it is a title or already carries
      enhanced text) is still skipped by it in `b`. */
  predicate KeepsEnhanceSkipped(a: seq<Segment>, b: seq<Segment>) {
    && |a| == |b|
    && forall j :: 0 <= j < |a| && (a[j].isTitle || a[j].enhanced != "") ==> (b[j].isTitle || b[j].enhanced != "")
  }

  /** A segment list changed at most at `idx`, where the segment stayed as it was or was
      completed, keeps every segment done with whatever it was done with. */
  lemma KeepsHandledAt(a: seq<Segment>, b: seq<Segment>, idx: nat)
    requires idx < |a| == |b|
    requires forall j :: 0 <= j < |a| && j != idx ==> b[j] == a[j]
    requires b[idx] == a[idx] || b[idx].status == SegmentStatus.Completed
    ensures KeepsHandled(a, b)
  {
  }

  /** A segment list changed at most at `idx`, where the segment kept its title flag and
      enhanced text or became a title, keeps every segment the enhance stage would skip. */
  lemma KeepsEnhanceSkippedAt(a: seq<Segment>, b: seq<Segment>, idx: nat)
    requires idx < |a| == |b|
    requires forall j :: 0 <= j < |a| && j != idx ==> b[j] == a[j]
    requires (b[idx].isTitle == a[idx].isTitle && b[idx].enhanced == a[idx].enhanced) || b[idx].isTitle
    ensures KeepsEnhanceSkipped(a, b)
  {
  }

  lemma KeepsHandledTrans(a: seq<Segment>, b: seq<Segment>, c: seq<Segment>)
    requires KeepsHandled(a, b) && KeepsHandled(b, c)
    ensures KeepsHandled(a, c)
  {
  }

  lemma KeepsEnhanceSkippedTrans(a: seq<Segment>, b: seq<Segment>, c: seq<Segment>)
    requires KeepsEnhanceSkipped(a, b) && KeepsEnhanceSkipped(b, c)
    ensures KeepsEnhanceSkipped(a, c)
  {
  }

  /** A step that goes on leaves the segment as it was or completed; a polish-like step never
      takes the enhance stage's reason to skip a segment away. */
  lemma VisitKeeps(env: Env, stage: Stage, idx: nat, c: Cursor)
    requires idx < |c.store.segments|
    ensures var r := Visit(env, stage, idx, c);
      && (r.Next? ==> KeepsHandled(c.store.segments, r.cursor.store.segments))
      && (stage != Enhance ==> KeepsEnhanceSkipped(c.store.segments, After(r).segments))
  {
    VisitOthers(env, stage, idx, c);
    VisitSegment(env, stage, idx, c);
    var r := Visit(env, stage, idx, c);
    if r.Next? {
      KeepsHandledAt(c.store.segments, After(r).segments, idx);
    }
    if stage != Enhance {
      KeepsEnhanceSkippedAt(c.store.segments, After(r).segments, idx);
    }
  }

  /** What one step does to its own segment: a step that goes on leaves it as it was or
      completed, and a polish-like step keeps its title flag and enhanced text or makes it a title. */
  lemma VisitSegment(env: Env, stage: Stage, idx: nat, c: Cursor)
    requires idx < |c.store.segments|
    ensures var r := Visit(env, stage, idx, c); var a := c.store.segments[idx]; var b := After(r).segments[idx];
      && (r.Next? ==> b == a || b.status == SegmentStatus.Completed)
      && (stage != Enhance ==> (b.isTitle == a.isTitle && b.enhanced == a.enhanced) || b.isTitle)
  {
    if NeedsGeneration(env, stage, c.store.segments[idx]) {
      GenerateSuccess(env, stage, idx, c.(store := Mark(c.store, idx, stage)));
    }
  }

  /** A loop that completes keeps every segment done with whatever it was done with; a
      polish-like loop, completed or not, keeps every segment the enhance stage would skip. */
  lemma {:induction false} LoopKeeps(env: Env, stage: Stage, idx: nat, c: Cursor)
    ensures var r := Loop(env, stage, idx, c);
      && (r.err.None? ==> KeepsHandled(c.store.segments, r.store.segments))
      && (stage != Enhance ==> KeepsEnhanceSkipped(c.store.segments, r.store.segments))
    decreases |c.store.segments| - idx
  {
    if idx >= |c.store.segments| {
      assert Loop(env, stage, idx, c) == Outcome(c.store, None);
      return;
    }
    VisitKeeps(env, stage, idx, c);
    var v := Visit(env, stage, idx, c);
    LoopUnfold(env, stage, idx, c);
    if v.Next? {
      var c' := v.cursor;
      LoopKeeps(env, stage, idx + 1, c');
      var r := Loop(env, stage, idx + 1, c');
      if r.err.None? {
        KeepsHandledTrans(c.store.segments, c'.store.segments, r.store.segments);
      }
      if stage != Enhance {
        KeepsEnhanceSkippedTrans(c.store.segments, c'.store.segments, r.store.segments);
      }
    }
  }

  /** The stage-level form of `LoopKeeps`. */
  lemma ProcessStageKeeps(env: Env, stage: Stage, s: Store)
    ensures var r := ProcessStage(env, stage, s);
      && (r.err.None? ==> KeepsHandled(s.segments, r.store.segments))
      && (stage != Enhance ==> KeepsEnhanceSkipped(s.segments, r.store.segments))
  {
    LoopKeeps(env, stage, StartIndex(s.run.failedIndex), Begin(env, stage, s));
  }
}
