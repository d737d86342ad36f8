/** The rolling conversation history of one stage: the context turns handed to the
    generative service, threshold-triggered compression into a single system turn, and the
    snapshots persisted after every segment that did real work. */
module HistoryManager {
  import opened Wrappers
  import opened Stages

  datatype Role = System | Assistant

  /** One `{"role": ..., "content": ...}` entry of the history list. */
  datatype Turn = Turn(role: Role, content: string)

  /** The two fixed compression instructions: the emotion-focused one for `emotion_polish`,
      the academic one for every other stage. Their wording is not part of this model. */
  datatype Template = Standard | EmotionFocused

  /** The compression collaborator: summarises the sample turns under an instruction, or
      raises with a message. */
  type Summariser = (seq<Turn>, Template) -> Result<string, string>

  /** The fixed text put in front of every summary. */
  const SummaryPrefix: string := "之前处理的段落摘要：\n"

  /** The shape a compression produces: exactly one system turn. */
  predicate IsCompressed(h: seq<Turn>) {
    |h| == 1 && h[0].role == System
  }

  /** The running weight of a history: the script-aware count of every turn's content. */
  function Weight(h: seq<Turn>, count: string -> int): int {
    if h == [] then 0 else count(h[0].content) + Weight(h[1..], count)
  }

  /** Appending a turn adds exactly its own weight, so the incremental running total of the
      stage loop and a fresh recount agree. */
  lemma {:induction false} WeightAppend(h: seq<Turn>, t: Turn, count: string -> int)
    ensures Weight(h + [t], count) == Weight(h, count) + count(t.content)
    decreases |h|
  {
    if h != [] {
      assert (h + [t])[1..] == h[1..] + [t];
      WeightAppend(h[1..], t, count);
    }
  }

  function TemplateFor(stage: Stage): (t: Template)
    ensures t == EmotionFocused <==> stage == EmotionPolish
  {
    if stage == EmotionPolish then EmotionFocused else Standard
  }

  /** The style sample: the last three turns, or the whole history when it is shorter. */
  function RecentTurns(h: seq<Turn>): (r: seq<Turn>)
    ensures |r| == Min(3, |h|)
    ensures r == h[|h| - |r|..]
  {
    if |h| > 3 then h[|h| - 3..] else h
  }

  /** `_compress_history`: the identity on a history that is already one system turn;
      otherwise the summary of the last three (or fewer) turns, wrapped as one system turn.
      A summariser failure propagates. */
  function Compress(h: seq<Turn>, stage: Stage, summarise: Summariser): (r: Result<seq<Turn>, string>)
    ensures IsCompressed(h) ==> r == Success(h)
    ensures r.Success? ==> IsCompressed(r.value)
    ensures !IsCompressed(h) ==>
      var reply := summarise(RecentTurns(h), TemplateFor(stage));
      && (r.Success? <==> reply.Success?)
      && (r.Success? ==> r.value[0].content == SummaryPrefix + reply.value)
      && (r.Failure? ==> r.error == reply.error)
  {
    if IsCompressed(h) then Success(h)
    else
      match summarise(RecentTurns(h), TemplateFor(stage))
      case Success(summary) => Success([Turn(System, SummaryPrefix + summary)])
      case Failure(message) => Failure(message)
  }

  /** Compressing twice is compressing once: the second call is the identity and never
      reaches the summariser. */
  lemma CompressIdempotent(h: seq<Turn>, stage: Stage, summarise: Summariser, again: Summariser)
    requires Compress(h, stage, summarise).Success?
    ensures Compress(Compress(h, stage, summarise).value, stage, again) == Compress(h, stage, summarise)
  {
  }

  /** One persisted `SessionHistory` row. */
  datatype Snapshot = Snapshot(stage: Stage, turns: seq<Turn>, isCompressed: bool, weight: int)

  /** `_save_history`: the snapshot of `h`, flagged compressed exactly when `h` is one system turn. */
  function Save(h: seq<Turn>, stage: Stage, weight: int): (s: Snapshot)
    ensures s.turns == h && s.stage == stage && s.weight == weight
    ensures s.isCompressed <==> IsCompressed(h)
  {
    Snapshot(stage, h, |h| == 1 && h[0].role == System, weight)
  }

  /** The snapshot taken right after a successful compression is flagged compressed, and one of
      a history of two or more turns never is. */
  lemma SaveAfterCompress(h: seq<Turn>, stage: Stage, summarise: Summariser, weight: int)
    ensures Compress(h, stage, summarise).Success? ==> Save(Compress(h, stage, summarise).value, stage, weight).isCompressed
    ensures |h| >= 2 ==> !Save(h, stage, weight).isCompressed
  {
  }

  /** A snapshot whose flag and weight agree with its turns. */
  predicate Consistent(s: Snapshot, stage: Stage, count: string -> int) {
    && s.stage == stage
    && s.weight == Weight(s.turns, count)
    && (s.isCompressed <==> IsCompressed(s.turns))
  }
}
