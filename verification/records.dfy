/** The records the orchestrator reads and writes, its collaborators, and the observable
    traces the proofs talk about. Durability is modelled as "the store after each step":
    every function that takes a `Store` returns the store as committed when it returns. */
module Records {
  import opened Wrappers
  import opened Stages
  import opened HistoryManager
  import opened ChangeRecorder

  datatype SegmentStatus = Pending | Processing | Completed | Failed

  /** An `OptimizationSegment` row. The nullable text columns are strings in which "" stands
      for both NULL and the empty string. Most reads of them in the core are truthiness tests;
      the enhance input and the audit entry's lengths are not, and there NULL is read as "". */
  datatype Segment = Segment(
    index: int,
    isTitle: bool,
    original: string,
    polished: string,
    enhanced: string,
    status: SegmentStatus,
    stage: Stage)

  /** The text column a stage writes: `polished_text` for both polish stages, `enhanced_text`
      for enhance. */
  function Output(stage: Stage, seg: Segment): string {
    if stage == Enhance then seg.enhanced else seg.polished
  }

  datatype RunStatus = Created | Queued | Processing | Completed | Failed

  /** What an exception raised inside a run carries.
      - `UnsupportedMode`: the processing mode has no stage sequence.
      - `CallFailed`: the single generative call for a segment raised; the segment number is
        1-based, as in the message the source builds.
      - `Raised`: any other collaborator raised inside the per-segment step (the compression
        summariser).
      - `SegmentFailed`: the per-segment wrapper, holding the 0-based segment position. */
  datatype Error =
    | UnsupportedMode(mode: string)
    | CallFailed(segmentNumber: nat, stage: Stage, message: string)
    | Raised(message: string)
    | SegmentFailed(index: nat, cause: Error)

  /** An `OptimizationSession` row, reduced to the fields the core reads or writes. The
      processing mode is a string in which "" stands for a missing mode. */
  datatype Run = Run(
    id: nat,
    originalText: string,
    mode: string,
    status: RunStatus,
    currentStage: Option<Stage>,
    currentPosition: nat,
    totalSegments: nat,
    progress: real,
    failedIndex: Option<int>,
    errorMessage: Option<Error>)

  /** One request to the generative service: which stage, for which segment position, on which input. */
  datatype AiCall = AiCall(stage: Stage, position: nat, input: string)

  /** The persistent records of one run plus three observation traces:
      - `calls`: every generative request, in order;
      - `progressLog`: every value written to the run's progress, in order;
      - `releases`: how often the admission gate was released for this run. */
  datatype Store = Store(
    run: Run,
    segments: seq<Segment>,
    snapshots: seq<Snapshot>,
    changes: seq<ChangeEntry>,
    calls: seq<AiCall>,
    progressLog: seq<real>,
    releases: nat)

  /** The collaborators the orchestrator calls and cannot see:
      - `split`: the segmenter;
      - `countLength`: `count_text_length`, compared with the skip threshold;
      - `countWeight`: `count_chinese_characters`, the history weight;
      - `generate`: the stage's bound generative operation; its arguments are the stage, the
        segment position, the input text and the history, so that it may answer differently
        for every request (a nondeterministic oracle);
      - `summarise`: the compression service;
      - `skipSetting`, `compressionThreshold`: the two configured thresholds. */
  datatype Env = Env(
    split: string -> seq<string>,
    countLength: string -> int,
    countWeight: string -> int,
    generate: (Stage, nat, string, seq<Turn>) -> Result<string, string>,
    summarise: Summariser,
    skipSetting: int,
    compressionThreshold: int)

  /** The store after a stage or a run, and the exception that ended it, if any. */
  datatype Outcome = Outcome(store: Store, err: Option<Error>)
}
