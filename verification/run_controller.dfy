/** `start_optimization`: one attempt at a run. It clears the previous error, materializes
    the segments on the first attempt, runs the stages of the processing mode in order, and
    ends with the run completed or failed and the admission gate released. */
module RunController {
  import opened Wrappers
  import opened Stages
  import opened HistoryManager
  import opened ChangeRecorder
  import opened Records
  import opened StageProcessor

  /** The stage sequence of a processing mode. A missing mode means `paper_polish_enhance`;
      every other unknown mode is rejected. */
  function StagesFor(mode: string): (r: Result<seq<Stage>, Error>)
    ensures r.Failure? <==> mode !in {"paper_polish", "emotion_polish", "paper_polish_enhance", ""}
    ensures r.Failure? ==> r.error == UnsupportedMode(mode)
    ensures r.Success? ==>
      && 1 <= |r.value| <= 2
      && r.value[0] != Enhance
      && (forall i :: 1 <= i < |r.value| ==> r.value[i] == Enhance)
      && (Enhance in r.value <==> mode == "paper_polish_enhance" || mode == "")
      && (EmotionPolish in r.value <==> mode == "emotion_polish")
  {
    var effective := if mode == "" then "paper_polish_enhance" else mode;
    if effective == "paper_polish" then Success([Polish])
    else if effective == "emotion_polish" then Success([EmotionPolish])
    else if effective == "paper_polish_enhance" then Success([Polish, Enhance])
    else Failure(UnsupportedMode(mode))
  }

  /** The segment records created for the pieces of the segmenter, in order. */
  function FreshSegments(pieces: seq<string>): (r: seq<Segment>)
    ensures |r| == |pieces|
    ensures forall i :: 0 <= i < |r| ==> r[i] == Segment(i, false, pieces[i], "", "", SegmentStatus.Pending, Polish)
  {
    seq(|pieces|, i requires 0 <= i < |pieces| => Segment(i, false, pieces[i], "", "", SegmentStatus.Pending, Polish))
  }

  /** Segments exist after the first attempt: they are created from the segmenter only when
      the run has none, and the run's total always counts them. */
  function Materialize(env: Env, s: Store): (r: Store)
    ensures r.run.totalSegments == |r.segments|
    ensures r.run == s.run.(totalSegments := |r.segments|)
    ensures s.segments != [] ==> r.segments == s.segments
    ensures s.segments == [] ==> r.segments == FreshSegments(env.split(s.run.originalText))
    ensures r.snapshots == s.snapshots && r.changes == s.changes && r.calls == s.calls
    ensures r.progressLog == s.progressLog && r.releases == s.releases
  {
    var segs := if s.segments == [] then FreshSegments(env.split(s.run.originalText)) else s.segments;
    s.(segments := segs, run := s.run.(totalSegments := |segs|))
  }

  /** A second attempt does not create segments again: materializing is idempotent. */
  lemma MaterializeIdempotent(env: Env, s: Store)
    ensures Materialize(env, Materialize(env, s)) == Materialize(env, s)
  {
  }

  /** The stages of a mode, in order, stopping at the first that fails. */
  function RunStages(env: Env, stages: seq<Stage>, s: Store): (r: Outcome)
    ensures SameSegments(r.store.segments, s.segments)
    decreases |stages|
  {
    if stages == [] then Outcome(s, None)
    else
      var o := ProcessStage(env, stages[0], s);
      if o.err.Some? then o else RunStages(env, stages[1..], o.store)
  }

  /** `start_optimization`. The processing status is written after the error state is cleared;
      the run completes exactly when no stage raised, and then its last progress write is 100 and
      the checkpoint is clear; otherwise it is failed with the raised error. That the gate is
      released exactly once and the identity kept is `StartEnds`. */
  function Start(env: Env, s: Store): (r: Outcome)
    ensures r.store.run.status == RunStatus.Completed <==> r.err.None?
    ensures r.err.Some? ==> r.store.run.status == RunStatus.Failed && r.store.run.errorMessage == r.err
    ensures r.err.None? ==>
      && r.store.run.progress == 100.0 && r.store.run.failedIndex == None
      && r.store.progressLog != [] && r.store.progressLog[|r.store.progressLog| - 1] == 100.0
  {
    var cleared := s.(run := s.run.(errorMessage := None, failedIndex := None, status := RunStatus.Processing));
    var ready := Materialize(env, cleared);
    var o := match StagesFor(ready.run.mode)
      case Failure(e) => Outcome(ready, Some(e))
      case Success(stages) => RunStages(env, stages, ready);
    var ended :=
      if o.err.None? then
        o.store.(run := o.store.run.(status := RunStatus.Completed, progress := 100.0, failedIndex := None),
                 progressLog := o.store.progressLog + [100.0])
      else
        o.store.(run := o.store.run.(status := RunStatus.Failed, errorMessage := o.err));
    Outcome(ended.(releases := ended.releases + 1), o.err)
  }

  /** The store a run's stages begin with. */
  function Ready(env: Env, s: Store): (r: Store)
    ensures r.run.failedIndex == None && r.run.status == RunStatus.Processing
    ensures r.run.totalSegments == |r.segments|
  {
    Materialize(env, s.(run := s.run.(errorMessage := None, failedIndex := None, status := RunStatus.Processing)))
  }

  /** A sequence of stages never writes the run's identity or the gate counter, only appends
      to the traces, keeps the audit log free of duplicate keys, and leaves the checkpoint
      alone unless a stage fails. */
  lemma {:induction false} RunStagesFrame(env: Env, stages: seq<Stage>, s: Store)
    ensures var r := RunStages(env, stages, s);
      && SameRunIdentity(r.store.run, s.run)
      && r.store.releases == s.releases
      && |s.calls| <= |r.store.calls| && r.store.calls[..|s.calls|] == s.calls
      && |s.progressLog| <= |r.store.progressLog| && r.store.progressLog[..|s.progressLog|] == s.progressLog
      && |s.snapshots| <= |r.store.snapshots| && r.store.snapshots[..|s.snapshots|] == s.snapshots
      && (UniqueKeys(s.changes) ==> UniqueKeys(r.store.changes))
      && (r.err.None? ==> r.store.run.failedIndex == s.run.failedIndex)
      && (r.err.None? ==> r.store.run.errorMessage == s.run.errorMessage)
    decreases |stages|
  {
    if stages != [] {
      var o := ProcessStage(env, stages[0], s);
      ProcessStageFrame(env, stages[0], s);
      ProcessStageCalls(env, stages[0], s);
      if o.err.None? {
        RunStagesFrame(env, stages[1..], o.store);
        var r := RunStages(env, stages[1..], o.store);
        PrefixOfPrefix(s.calls, o.store.calls, r.store.calls);
        PrefixOfPrefix(s.progressLog, o.store.progressLog, r.store.progressLog);
        PrefixOfPrefix(s.snapshots, o.store.snapshots, r.store.snapshots);
      }
    }
  }

  /** Progress values from trace position `m` on lie in [0, 100). */
  predicate BelowFull(log: seq<real>, m: nat)
    requires m <= |log|
  {
    forall k :: m <= k < |log| ==> 0.0 <= log[k] < 100.0
  }

  lemma BelowFullStep(log0: seq<real>, log1: seq<real>, log2: seq<real>)
    requires |log0| <= |log1| <= |log2| && log2[..|log1|] == log1
    requires BelowFull(log1, |log0|) && BelowFull(log2, |log1|)
    ensures BelowFull(log2, |log0|)
  {
    forall k | |log0| <= k < |log2|
      ensures 0.0 <= log2[k] < 100.0
    {
      if k < |log1| {
        assert log2[k] == log1[k];
      }
    }
  }

  /** No stage ever writes a progress of 100 or more. */
  lemma {:induction false} RunStagesProgress(env: Env, stages: seq<Stage>, s: Store)
    ensures var r := RunStages(env, stages, s);
      |s.progressLog| <= |r.store.progressLog| && BelowFull(r.store.progressLog, |s.progressLog|)
    decreases |stages|
  {
    if stages != [] {
      var o := ProcessStage(env, stages[0], s);
      ProcessStageProgress(env, stages[0], s);
      if o.err.None? {
        RunStagesProgress(env, stages[1..], o.store);
        RunStagesFrame(env, stages[1..], o.store);
        BelowFullStep(s.progressLog, o.store.progressLog, RunStages(env, stages[1..], o.store).store.progressLog);
      }
    }
  }

  /** Snapshots from trace position `m` on are consistent with their own turns and belong to
      one of `stages`. */
  predicate SnapshotsFrom(snaps: seq<Snapshot>, m: nat, stages: seq<Stage>, count: string -> int)
    requires m <= |snaps|
  {
    forall k :: m <= k < |snaps| ==> snaps[k].stage in stages && Consistent(snaps[k], snaps[k].stage, count)
  }

  lemma SnapshotsStep(snaps0: seq<Snapshot>, snaps1: seq<Snapshot>, snaps2: seq<Snapshot>,
                      stages: seq<Stage>, count: string -> int)
    requires stages != []
    requires |snaps0| <= |snaps1| <= |snaps2| && snaps2[..|snaps1|] == snaps1
    requires ConsistentFrom(snaps1, |snaps0|, stages[0], count)
    requires SnapshotsFrom(snaps2, |snaps1|, stages[1..], count)
    ensures SnapshotsFrom(snaps2, |snaps0|, stages, count)
  {
    forall k | |snaps0| <= k < |snaps2|
      ensures snaps2[k].stage in stages && Consistent(snaps2[k], snaps2[k].stage, count)
    {
      if k < |snaps1| {
        assert snaps2[k] == snaps1[k];
      } else {
        assert snaps2[k].stage in stages[1..];
      }
    }
  }

  /** Every snapshot a sequence of stages saves belongs to one of them and agrees with its turns. */
  lemma {:induction false} RunStagesSnapshots(env: Env, stages: seq<Stage>, s: Store)
    ensures var r := RunStages(env, stages, s);
      |s.snapshots| <= |r.store.snapshots| && SnapshotsFrom(r.store.snapshots, |s.snapshots|, stages, env.countWeight)
    decreases |stages|
  {
    if stages != [] {
      var o := ProcessStage(env, stages[0], s);
      ProcessStageSnapshots(env, stages[0], s);
      if o.err.None? {
        RunStagesSnapshots(env, stages[1..], o.store);
        RunStagesFrame(env, stages[1..], o.store);
        SnapshotsStep(s.snapshots, o.store.snapshots, RunStages(env, stages[1..], o.store).store.snapshots,
                      stages, env.countWeight);
      } else {
        assert SnapshotsFrom(o.store.snapshots, |s.snapshots|, stages, env.countWeight);
      }
    }
  }

  /** A failed sequence of stages names the segment it stopped at, in one of the stages: that
      segment is failed on its request in that stage (refused by the service with the message
      of the call error, or answered and then the compression raised), and the checkpoint and
      the error point at it. */
  lemma {:induction false} RunStagesFailure(env: Env, stages: seq<Stage>, s: Store)
    ensures var r := RunStages(env, stages, s);
      r.err.Some? ==>
        var e := r.err.value;
        && e.SegmentFailed?
        && e.index < |s.segments|
        && r.store.run.failedIndex == Some(e.index as int)
        && r.store.run.errorMessage == Some(e.cause)
        && r.store.segments[e.index].stage in stages
        && FailedOn(env, e.index, r.store.segments[e.index], e.cause)
    decreases |stages|
  {
    if stages != [] {
      var o := ProcessStage(env, stages[0], s);
      ProcessStageFailure(env, stages[0], s);
      if o.err.Some? {
        var e := o.err.value;
        StoppedFailedOn(env, stages[0], e.index, s.segments[e.index], o.store.segments[e.index], e.cause);
      } else {
        RunStagesFailure(env, stages[1..], o.store);
        var r := RunStages(env, stages[1..], o.store);
        if r.err.Some? {
          assert r.store.segments[r.err.value.index].stage in stages[1..];
        }
      }
    }
  }

  /** A sequence of stages cannot complete while the service refuses, whatever it is sent and
      whatever the history, a segment that needs the first stage. */
  lemma RunStagesRefused(env: Env, stages: seq<Stage>, s: Store, j: nat)
    requires stages != [] && s.run.failedIndex.None?
    requires j < |s.segments| && NeedsGeneration(env, stages[0], s.segments[j])
    requires forall h :: env.generate(stages[0], j, StageInput(stages[0], s.segments[j]), h).Failure?
    ensures RunStages(env, stages, s).err.Some?
  {
    ProcessStageRefused(env, stages[0], s, j);
  }

  /** However a run ends, the gate is released exactly once, the run's identity is untouched
      and its total counts its segments. A run completes exactly when no error was raised, and
      then its progress is 100 and its checkpoint and error are clear; otherwise it is failed
      and its error is the one raised. The audit log never gains a duplicate key. */
  lemma StartEnds(env: Env, s: Store)
    ensures var r := Start(env, s);
      && r.store.releases == s.releases + 1
      && r.store.run.id == s.run.id && r.store.run.originalText == s.run.originalText && r.store.run.mode == s.run.mode
      && r.store.run.totalSegments == |r.store.segments|
      && (r.err.None? ==> r.store.run.errorMessage == None)
      && (UniqueKeys(s.changes) ==> UniqueKeys(r.store.changes))
  {
    var ready := Ready(env, s);
    if StagesFor(ready.run.mode).Success? {
      RunStagesFrame(env, StagesFor(ready.run.mode).value, ready);
    }
  }

  /** A run whose mode has no stage sequence fails with that mode before any generative call,
      but only after its segments have been materialized. */
  lemma StartUnsupportedMode(env: Env, s: Store)
    requires StagesFor(s.run.mode).Failure?
    ensures var r := Start(env, s);
      && r.err == Some(UnsupportedMode(s.run.mode))
      && r.store.run.status == RunStatus.Failed
      && r.store.calls == s.calls
      && r.store.segments == Ready(env, s).segments
  {
  }

  /** `start_optimization` clears the checkpoint and the error before any stage reads them, so
      an attempt does the same whatever checkpoint a previous attempt left: resumption comes
      from the skip rules, never from the checkpoint. */
  lemma StartIgnoresCheckpoint(env: Env, s: Store, checkpoint: Option<int>, error: Option<Error>)
    ensures Start(env, s.(run := s.run.(failedIndex := checkpoint, errorMessage := error))) == Start(env, s)
  {
  }

  /** Progress is never written as 100 or more while stages run: 100 is written exactly when
      the run completes, as its last progress write. */
  lemma StartProgress(env: Env, s: Store)
    ensures var r := Start(env, s); var m := |s.progressLog|; var log := r.store.progressLog;
      && m <= |log|
      && (forall k :: m <= k < |log| ==> 0.0 <= log[k] <= 100.0)
      && (r.err.None? <==> |log| > m && log[|log| - 1] == 100.0)
  {
    var ready := Ready(env, s);
    if StagesFor(ready.run.mode).Success? {
      RunStagesProgress(env, StagesFor(ready.run.mode).value, ready);
    }
  }

  /** The generative requests made since trace position `m` went only to segments, as they are
      in `segs`, that had no output for the request's stage, were not a title met by enhance and
      were long enough not to be titles; no position was requested twice for the same stage. */
  predicate NeverResent(env: Env, calls: seq<AiCall>, m: nat, segs: seq<Segment>)
    requires m <= |calls|
  {
    && (forall k :: m <= k < |calls| ==>
          && calls[k].position < |segs|
          && Output(calls[k].stage, segs[calls[k].position]) == ""
          && !(calls[k].stage == Enhance && segs[calls[k].position].isTitle)
          && env.countLength(segs[calls[k].position].original) >= SkipThreshold(env))
    && (forall k1, k2 :: m <= k1 < k2 < |calls| && calls[k1].stage == calls[k2].stage ==>
          calls[k1].position < calls[k2].position)
  }

  lemma OneStageNeverResent(env: Env, stage: Stage, segs: seq<Segment>, calls: seq<AiCall>, m: nat)
    requires m <= |calls|
    requires CallsFrom(env, stage, 0, segs, calls, m)
    ensures NeverResent(env, calls, m, segs)
  {
  }

  lemma TwoStagesNeverResent(env: Env, first: Stage, segs0: seq<Segment>, segs1: seq<Segment>,
                             calls0: seq<AiCall>, calls1: seq<AiCall>, calls2: seq<AiCall>)
    requires first != Enhance
    requires |calls0| <= |calls1| <= |calls2| && calls2[..|calls1|] == calls1
    requires CallsFrom(env, first, 0, segs0, calls1, |calls0|)
    requires CallsFrom(env, Enhance, 0, segs1, calls2, |calls1|)
    requires SameSegments(segs0, segs1) && KeepsEnhanceSkipped(segs0, segs1)
    ensures NeverResent(env, calls2, |calls0|, segs0)
  {
    forall k | |calls0| <= k < |calls2|
      ensures && calls2[k].position < |segs0|
              && Output(calls2[k].stage, segs0[calls2[k].position]) == ""
              && !(calls2[k].stage == Enhance && segs0[calls2[k].position].isTitle)
              && env.countLength(segs0[calls2[k].position].original) >= SkipThreshold(env)
    {
      if k < |calls1| {
        assert calls2[k] == calls1[k];
      } else {
        var j := calls2[k].position;
        assert NeedsGeneration(env, Enhance, segs1[j]);
        assert !(segs0[j].isTitle || segs0[j].enhanced != "");
      }
    }
    forall k1, k2 | |calls0| <= k1 < k2 < |calls2| && calls2[k1].stage == calls2[k2].stage
      ensures calls2[k1].position < calls2[k2].position
    {
      if k2 < |calls1| {
        assert calls2[k1] == calls1[k1] && calls2[k2] == calls1[k2];
      }
    }
  }

  /** The shape of every stage sequence a mode yields: one polish-like stage, then possibly enhance. */
  predicate ModeShape(stages: seq<Stage>) {
    && 1 <= |stages| <= 2
    && stages[0] != Enhance
    && (|stages| == 2 ==> stages[1] == Enhance)
  }

  lemma RunStagesOne(env: Env, stage: Stage, s: Store)
    ensures RunStages(env, [stage], s) == ProcessStage(env, stage, s)
  {
    assert [stage][1..] == [];
  }

  /** The stages of a mode, begun without a checkpoint, never resend a segment. */
  lemma RunStagesNeverResends(env: Env, stages: seq<Stage>, s: Store)
    requires ModeShape(stages) && s.run.failedIndex.None?
    ensures var r := RunStages(env, stages, s);
      |s.calls| <= |r.store.calls| && NeverResent(env, r.store.calls, |s.calls|, s.segments)
  {
    var o := ProcessStage(env, stages[0], s);
    if |stages| == 1 || o.err.Some? {
      assert RunStages(env, stages, s) == o;
      FirstStageNeverResends(env, stages[0], s);
    } else {
      assert stages[1..] == [Enhance];
      RunStagesOne(env, Enhance, o.store);
      assert RunStages(env, stages, s) == ProcessStage(env, Enhance, o.store);
      BothStagesNeverResend(env, stages[0], s);
    }
  }

  lemma FirstStageNeverResends(env: Env, stage: Stage, s: Store)
    requires s.run.failedIndex.None?
    ensures var r := ProcessStage(env, stage, s);
      |s.calls| <= |r.store.calls| && NeverResent(env, r.store.calls, |s.calls|, s.segments)
  {
    ProcessStageCalls(env, stage, s);
    OneStageNeverResent(env, stage, s.segments, ProcessStage(env, stage, s).store.calls, |s.calls|);
  }

  lemma BothStagesNeverResend(env: Env, first: Stage, s: Store)
    requires first != Enhance && s.run.failedIndex.None?
    requires ProcessStage(env, first, s).err.None?
    ensures var o := ProcessStage(env, first, s); var r := ProcessStage(env, Enhance, o.store);
      |s.calls| <= |r.store.calls| && NeverResent(env, r.store.calls, |s.calls|, s.segments)
  {
    var o := ProcessStage(env, first, s);
    var o2 := ProcessStage(env, Enhance, o.store);
    ProcessStageCalls(env, first, s);
    ProcessStageFrame(env, first, s);
    ProcessStageCalls(env, Enhance, o.store);
    ProcessStageKeeps(env, first, s);
    TwoStagesNeverResent(env, first, s.segments, o.store.segments, s.calls, o.store.calls, o2.store.calls);
  }

  /** Resumption: an attempt never sends the generative service a segment that already carries
      the output of the request's stage, a title for enhance, or a segment short enough to be a
      title, and it requests each position at most once per stage. Applied to the store a
      failed attempt left behind, this is why a restarted run does not redo finished work. */
  lemma StartNeverResends(env: Env, s: Store)
    ensures var r := Start(env, s);
      && |s.calls| <= |r.store.calls|
      && NeverResent(env, r.store.calls, |s.calls|, Ready(env, s).segments)
      && (s.segments != [] ==> NeverResent(env, r.store.calls, |s.calls|, s.segments))
  {
    var ready := Ready(env, s);
    match StagesFor(ready.run.mode)
    case Failure(_) =>
      assert Start(env, s).store.calls == s.calls;
    case Success(stages) =>
      RunStagesNeverResends(env, stages, ready);
      assert Start(env, s).store.calls == RunStages(env, stages, ready).store.calls;
  }

  /** The stages of a mode, begun without a checkpoint, leave every segment done with every
      one of them when they complete; and every segment that needed the service for one of
      them, as the segment was before the stages ran, holds in that stage's column a reply of
      the service to the request made on the stage's input. */
  lemma RunStagesSuccess(env: Env, stages: seq<Stage>, s: Store)
    requires ModeShape(stages) && s.run.failedIndex.None?
    ensures var r := RunStages(env, stages, s);
      r.err.None? ==>
        forall j, st :: 0 <= j < |r.store.segments| && st in stages ==>
          && Handled(st, r.store.segments[j])
          && (NeedsGeneration(env, st, s.segments[j]) ==>
                Answered(env, AiCall(st, j, StageInput(st, r.store.segments[j])), Output(st, r.store.segments[j])))
  {
    if ProcessStage(env, stages[0], s).err.Some? {
      assert RunStages(env, stages, s).err.Some?;
    } else if |stages| == 1 {
      FirstStageSuccess(env, stages, s);
    } else {
      BothStagesSuccess(env, stages, s);
    }
  }

  lemma FirstStageSuccess(env: Env, stages: seq<Stage>, s: Store)
    requires |stages| == 1 && s.run.failedIndex.None?
    ensures var r := RunStages(env, stages, s);
      r.err.None? ==>
        forall j, st :: 0 <= j < |r.store.segments| && st in stages ==>
          && Handled(st, r.store.segments[j])
          && (NeedsGeneration(env, st, s.segments[j]) ==>
                Answered(env, AiCall(st, j, StageInput(st, r.store.segments[j])), Output(st, r.store.segments[j])))
  {
    var stage := stages[0];
    RunStagesOne(env, stage, s);
    assert stages == [stage];
    var r := ProcessStage(env, stage, s);
    ProcessStageSuccess(env, stage, s);
    if r.err.None? {
      forall j | 0 <= j < |s.segments| && NeedsGeneration(env, stage, s.segments[j])
        ensures Answered(env, AiCall(stage, j, StageInput(stage, r.store.segments[j])), Output(stage, r.store.segments[j]))
      {
        SettledAnswered(env, stage, j, s.segments[j], r.store.segments[j]);
      }
    }
  }

  lemma BothStagesSuccess(env: Env, stages: seq<Stage>, s: Store)
    requires |stages| == 2 && stages[0] != Enhance && stages[1] == Enhance && s.run.failedIndex.None?
    requires ProcessStage(env, stages[0], s).err.None?
    ensures var r := RunStages(env, stages, s);
      r.err.None? ==>
        forall j, st :: 0 <= j < |r.store.segments| && st in stages ==>
          && Handled(st, r.store.segments[j])
          && (NeedsGeneration(env, st, s.segments[j]) ==>
                Answered(env, AiCall(st, j, StageInput(st, r.store.segments[j])), Output(st, r.store.segments[j])))
  {
    var first := stages[0];
    var o := ProcessStage(env, first, s);
    var r := ProcessStage(env, Enhance, o.store);
    assert stages == [first, Enhance] && stages[1..] == [Enhance];
    RunStagesOne(env, Enhance, o.store);
    assert RunStages(env, stages, s) == r;
    if r.err.None? {
      BothStagesSegments(env, first, s);
      forall j, st | 0 <= j < |r.store.segments| && st in stages
        ensures && Handled(st, r.store.segments[j])
                && (NeedsGeneration(env, st, s.segments[j]) ==>
                      Answered(env, AiCall(st, j, StageInput(st, r.store.segments[j])), Output(st, r.store.segments[j])))
      {
        assert st == first || st == Enhance;
      }
    }
  }

  lemma BothStagesSegments(env: Env, first: Stage, s: Store)
    requires first != Enhance && s.run.failedIndex.None?
    requires ProcessStage(env, first, s).err.None?
    ensures var o := ProcessStage(env, first, s); var r := ProcessStage(env, Enhance, o.store);
      r.err.None? ==>
        forall j :: 0 <= j < |s.segments| ==>
          && |r.store.segments| == |s.segments|
          && Handled(first, r.store.segments[j]) && Handled(Enhance, r.store.segments[j])
          && (NeedsGeneration(env, first, s.segments[j]) ==>
                Answered(env, AiCall(first, j, StageInput(first, r.store.segments[j])), Output(first, r.store.segments[j])))
          && (NeedsGeneration(env, Enhance, s.segments[j]) ==>
                Answered(env, AiCall(Enhance, j, StageInput(Enhance, r.store.segments[j])), Output(Enhance, r.store.segments[j])))
  {
    var o := ProcessStage(env, first, s);
    var r := ProcessStage(env, Enhance, o.store);
    ProcessStageSuccess(env, first, s);
    ProcessStageFrame(env, first, s);
    ProcessStageSuccess(env, Enhance, o.store);
    ProcessStageKeeps(env, Enhance, o.store);
    if r.err.None? {
      forall j | 0 <= j < |s.segments|
        ensures Handled(first, r.store.segments[j])
        ensures NeedsGeneration(env, first, s.segments[j]) ==>
          Answered(env, AiCall(first, j, StageInput(first, r.store.segments[j])), Output(first, r.store.segments[j]))
        ensures NeedsGeneration(env, Enhance, s.segments[j]) ==>
          Answered(env, AiCall(Enhance, j, StageInput(Enhance, r.store.segments[j])), Output(Enhance, r.store.segments[j]))
      {
        SettledTwice(env, first, j, s.segments[j], o.store.segments[j], r.store.segments[j]);
      }
    }
  }

  /** A completed run leaves every segment done with every stage of its mode, and every
      segment that needed the service for one of them, as the attempt found it, holds in that
      stage's column a reply of the service to the request made on the stage's input. */
  lemma StartSuccess(env: Env, s: Store)
    ensures var r := Start(env, s);
      r.err.None? ==>
        && StagesFor(s.run.mode).Success?
        && forall j, st :: 0 <= j < |r.store.segments| && st in StagesFor(s.run.mode).value ==>
             && Handled(st, r.store.segments[j])
             && (NeedsGeneration(env, st, Ready(env, s).segments[j]) ==>
                   Answered(env, AiCall(st, j, StageInput(st, r.store.segments[j])), Output(st, r.store.segments[j])))
  {
    var ready := Ready(env, s);
    match StagesFor(ready.run.mode)
    case Failure(_) =>
    case Success(stages) =>
      RunStagesSuccess(env, stages, ready);
      assert Start(env, s).store.segments == RunStages(env, stages, ready).store.segments;
  }

  /** A failed run either rejected its mode before any generative call, or stopped at a
      segment of one of its stages that the checkpoint points at and that is failed on its
      request in that stage: refused by the service with the message of the call error, or
      answered and then the compression raised. */
  lemma StartFailure(env: Env, s: Store)
    ensures var r := Start(env, s);
      r.err.Some? ==>
        || (&& StagesFor(s.run.mode).Failure?
            && r.err == Some(UnsupportedMode(s.run.mode))
            && r.store.calls == s.calls)
        || (&& StagesFor(s.run.mode).Success?
            && r.err.value.SegmentFailed?
            && r.err.value.index < |r.store.segments|
            && r.store.run.failedIndex == Some(r.err.value.index as int)
            && r.store.segments[r.err.value.index].stage in StagesFor(s.run.mode).value
            && FailedOn(env, r.err.value.index, r.store.segments[r.err.value.index], r.err.value.cause))
  {
    var ready := Ready(env, s);
    if StagesFor(ready.run.mode).Success? {
      RunStagesFailure(env, StagesFor(ready.run.mode).value, ready);
    }
  }

  /** A run cannot complete while the service refuses, whatever it is sent and whatever the
      history, a segment that needs the first stage of the run's mode: the run then fails. */
  lemma StartRefused(env: Env, s: Store, j: nat)
    requires StagesFor(s.run.mode).Success?
    requires j < |Ready(env, s).segments|
    requires NeedsGeneration(env, StagesFor(s.run.mode).value[0], Ready(env, s).segments[j])
    requires forall input, h :: env.generate(StagesFor(s.run.mode).value[0], j, input, h).Failure?
    ensures var r := Start(env, s); r.err.Some? && r.store.run.status == RunStatus.Failed
  {
    var ready := Ready(env, s);
    var stages := StagesFor(s.run.mode).value;
    RunStagesRefused(env, stages, ready, j);
  }

  /** Every history snapshot an attempt saves belongs to a stage of its mode, and carries the
      recount of its own turns and the compressed flag of its own shape. */
  lemma StartSnapshots(env: Env, s: Store)
    ensures var r := Start(env, s);
      && |s.snapshots| <= |r.store.snapshots|
      && (StagesFor(s.run.mode).Failure? ==> r.store.snapshots == s.snapshots)
      && (StagesFor(s.run.mode).Success? ==>
            SnapshotsFrom(r.store.snapshots, |s.snapshots|, StagesFor(s.run.mode).value, env.countWeight))
  {
    var ready := Ready(env, s);
    if StagesFor(ready.run.mode).Success? {
      RunStagesSnapshots(env, StagesFor(ready.run.mode).value, ready);
    }
  }
}
