/** `_record_change`: an audit entry per (session, segment index, stage), written as an
    upsert so that re-running a segment updates its entry instead of adding another. */
module ChangeRecorder {
  import opened Wrappers
  import opened Stages

  datatype ChangeKey = ChangeKey(session: nat, segment: int, stage: Stage)

  /** One `ChangeLog` row; the serialized detail is held as its three fields. */
  datatype ChangeEntry = ChangeEntry(
    key: ChangeKey,
    before: string,
    after: string,
    beforeLength: nat,
    afterLength: nat,
    changed: bool)

  /** The entry the recorder writes for a before/after pair. */
  function Entry(key: ChangeKey, before: string, after: string): (e: ChangeEntry)
    ensures e.key == key && e.before == before && e.after == after
    ensures e.beforeLength == |before| && e.afterLength == |after|
    ensures e.changed <==> before != after
  {
    ChangeEntry(key, before, after, |before|, |after|, before != after)
  }

  /** The position of the latest entry for `key`: the row the store's newest-first query returns. */
  function LatestIndex(log: seq<ChangeEntry>, key: ChangeKey): (r: Option<nat>)
    ensures r.Some? ==> r.value < |log| && log[r.value].key == key
    ensures r.Some? ==> forall j :: r.value < j < |log| ==> log[j].key != key
    ensures r.None? ==> forall j :: 0 <= j < |log| ==> log[j].key != key
  {
    if log == [] then None
    else if log[|log| - 1].key == key then Some(|log| - 1)
    else LatestIndex(log[..|log| - 1], key)
  }

  /** The latest entry for a key is the one after which the key does not occur again. */
  lemma {:induction false} LatestIndexIs(log: seq<ChangeEntry>, key: ChangeKey, i: nat)
    requires i < |log| && log[i].key == key
    requires forall j :: i < j < |log| ==> log[j].key != key
    ensures LatestIndex(log, key) == Some(i)
    decreases |log|
  {
    if i < |log| - 1 {
      LatestIndexIs(log[..|log| - 1], key, i);
    }
  }

  /** No key occurs twice. */
  predicate UniqueKeys(log: seq<ChangeEntry>) {
    forall i, j :: 0 <= i < j < |log| ==> log[i].key != log[j].key
  }

  /** Updates the latest entry for `key` in place, or appends one when there is none. */
  function Record(log: seq<ChangeEntry>, key: ChangeKey, before: string, after: string): (r: seq<ChangeEntry>)
    ensures |r| == if LatestIndex(log, key).Some? then |log| else |log| + 1
    ensures LatestIndex(r, key).Some? && r[LatestIndex(r, key).value] == Entry(key, before, after)
    ensures forall j :: 0 <= j < |log| && log[j].key != key ==> r[j] == log[j]
    ensures forall j :: 0 <= j < |r| ==> r[j].key == key || (j < |log| && r[j] == log[j])
    ensures UniqueKeys(log) ==> UniqueKeys(r)
  {
    match LatestIndex(log, key)
    case Some(i) =>
      var r := log[i := Entry(key, before, after)];
      LatestIndexIs(r, key, i);
      r
    case None => log + [Entry(key, before, after)]
  }

  /** Recording the same key again never grows the log. */
  lemma RecordAgainKeepsLength(log: seq<ChangeEntry>, key: ChangeKey, b1: string, a1: string, b2: string, a2: string)
    ensures |Record(Record(log, key, b1, a1), key, b2, a2)| == |Record(log, key, b1, a1)|
  {
  }
}
