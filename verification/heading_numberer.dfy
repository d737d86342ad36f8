/** `HeadingNumberer`: six nested heading counters, the multi-level numbers built from them
    ("1", "1.2", "1.2.3"), and synchronisation to a number already written in the text. */
module Numbering {
  import opened Wrappers
  import opened Text

  /** The fixed number of counters. */
  const Depth: nat := 6

  /** The characters an existing number is split on: the ASCII and the full-width full stop. */
  const NumberSeps: set<char> := {'.', '．'}

  datatype Numberer = Numberer(counters: seq<int>, maxLevel: int, separator: string)

  /** Six counters, and a maximum numbered level that never exceeds them. */
  predicate Valid(n: Numberer) {
    |n.counters| == Depth && n.maxLevel <= Depth
  }

  function Zeros(): (z: seq<int>)
    ensures |z| == Depth && forall i :: 0 <= i < |z| ==> z[i] == 0
  {
    [0, 0, 0, 0, 0, 0]
  }

  /** `counters` with every position from `from` on set to zero, one position at a time. */
  function ZeroFrom(counters: seq<int>, from: nat): (r: seq<int>)
    ensures |r| == |counters|
    ensures forall i :: 0 <= i < |r| ==> r[i] == if i < from then counters[i] else 0
    decreases |counters| - from
  {
    if from >= |counters| then counters else ZeroFrom(counters[from := 0], from + 1)
  }

  /** A fresh numberer: all counters zero, the maximum level clamped to six. */
  function New(maxLevel: int, separator: string): (n: Numberer)
    ensures Valid(n)
    ensures n.counters == Zeros() && n.separator == separator
    ensures n.maxLevel == Min(maxLevel, Depth) && (maxLevel <= Depth ==> n.maxLevel == maxLevel)
  {
    Numberer(Zeros(), Min(maxLevel, Depth), separator)
  }

  function Reset(n: Numberer): (r: Numberer)
    requires Valid(n)
    ensures Valid(r) && r.maxLevel == n.maxLevel && r.separator == n.separator
    ensures forall i :: 0 <= i < Depth ==> r.counters[i] == 0
  {
    n.(counters := Zeros())
  }

  /** The decimal text of each counter. */
  function Render(xs: seq<int>): (r: seq<string>)
    ensures |r| == |xs|
    ensures forall i :: 0 <= i < |r| ==> r[i] == IntToString(xs[i])
  {
    seq(|xs|, i requires 0 <= i < |xs| => IntToString(xs[i]))
  }

  /** The loop of `sync_to_existing` over the parts of a number, from part `i` on: every part
      that `ParseInt` reads (an optional sign and ASCII digits) overwrites its counter, every
      other part is skipped. */
  function Absorb(counters: seq<int>, parts: seq<string>, i: nat): (r: seq<int>)
    ensures |r| == |counters|
    ensures forall j :: 0 <= j < |r| ==>
      r[j] == if i <= j < |parts| && ParseInt(parts[j]).Some? then ParseInt(parts[j]).value else counters[j]
    decreases |parts| - i
  {
    if i >= |parts| then counters
    else if i < |counters| && ParseInt(parts[i]).Some? then Absorb(counters[i := ParseInt(parts[i]).value], parts, i + 1)
    else Absorb(counters, parts, i + 1)
  }

  /** `sync_to_existing`: nothing for a level outside 1..6; otherwise every part of the number
      that parses sets the counter at its position (only the first six parts count), and every
      counter from `level` on is zeroed. */
  function SyncToExisting(n: Numberer, number: string, level: int): (r: Numberer)
    requires Valid(n)
    ensures Valid(r) && r.maxLevel == n.maxLevel && r.separator == n.separator
    ensures (level < 1 || level > Depth) ==> r == n
    ensures 1 <= level <= Depth ==>
      var parts := Split(number, NumberSeps);
      forall i :: 0 <= i < Depth ==>
        r.counters[i] == if level <= i then 0
                         else if i < |parts| && ParseInt(parts[i]).Some? then ParseInt(parts[i]).value
                         else n.counters[i]
  {
    if level < 1 || level > Depth then n
    else n.(counters := ZeroFrom(Absorb(n.counters, Split(number, NumberSeps), 0), level))
  }

  /** `get_current_number`: "" outside 1..max level, otherwise the first `level` counters
      joined by the separator. The numberer is not changed (it is not returned). */
  function GetCurrentNumber(n: Numberer, level: int): (r: string)
    requires Valid(n)
    ensures (level < 1 || level > n.maxLevel) ==> r == ""
    ensures 1 <= level <= n.maxLevel ==> r == Join(Render(n.counters[..level]), n.separator)
  {
    if level < 1 || level > n.maxLevel then "" else Join(Render(n.counters[..level]), n.separator)
  }

  datatype Numbered = Numbered(numberer: Numberer, text: string)

  /** `next_number`: outside 1..max level, "" and no change; otherwise the counter of the level
      is incremented, every deeper counter zeroed and shallower ones kept, and the number is
      the one `get_current_number` then reports. */
  function NextNumber(n: Numberer, level: int): (r: Numbered)
    requires Valid(n)
    ensures Valid(r.numberer) && r.numberer.maxLevel == n.maxLevel && r.numberer.separator == n.separator
    ensures (level < 1 || level > n.maxLevel) ==> r.numberer == n && r.text == ""
    ensures 1 <= level <= n.maxLevel ==>
      && r.numberer.counters[level - 1] == n.counters[level - 1] + 1
      && (forall i :: 0 <= i < level - 1 ==> r.numberer.counters[i] == n.counters[i])
      && (forall i :: level <= i < Depth ==> r.numberer.counters[i] == 0)
    ensures r.text == GetCurrentNumber(r.numberer, level)
  {
    if level < 1 || level > n.maxLevel then Numbered(n, "")
    else
      var idx := level - 1;
      var bumped := n.(counters := ZeroFrom(n.counters[idx := n.counters[idx] + 1], idx + 1));
      Numbered(bumped, Join(Render(bumped.counters[..level]), n.separator))
  }

  /** After `reset` (and so for a fresh numberer), the first number at a level has every
      shallower counter at 0 and its own at 1: "1" at level 1, "0.1" at level 2. */
  lemma FirstNumberAfterReset(n: Numberer, level: int)
    requires Valid(n) && 1 <= level <= n.maxLevel
    ensures var next := NextNumber(Reset(n), level);
      && next.numberer.counters[..level] == Zeros()[..level - 1] + [1]
      && (level == 1 ==> next.text == "1")
  {
    var next := NextNumber(Reset(n), level);
    assert next.numberer.counters[..level] == Zeros()[..level - 1] + [1];
    if level == 1 {
      assert Render(next.numberer.counters[..1]) == ["1"];
    }
  }

  /** A fresh numberer is a reset one: it numbers its first heading as `FirstNumberAfterReset` says. */
  lemma NewIsReset(maxLevel: int, separator: string, n: Numberer)
    requires Valid(n) && n.maxLevel == Min(maxLevel, Depth) && n.separator == separator
    ensures New(maxLevel, separator) == Reset(n)
  {
  }

  /** With a one-character separator that is neither a digit nor a minus sign, a number has
      exactly `level` components and each reads back as its counter. */
  lemma NumberComponents(n: Numberer, level: int, c: char)
    requires Valid(n) && 1 <= level <= n.maxLevel
    requires n.separator == [c] && !IsDigit(c) && c != '-'
    ensures var parts := Split(GetCurrentNumber(n, level), {c});
      && |parts| == level
      && forall i :: 0 <= i < level ==> ParseInt(parts[i]) == Some(n.counters[i])
  {
    var xs := Render(n.counters[..level]);
    forall k | 0 <= k < |xs| ensures Avoids(xs[k], {c}) {
      IntToStringAvoids(n.counters[k], {c});
    }
    SplitJoinPlain(xs, c, {c});
    forall i | 0 <= i < level ensures ParseInt(xs[i]) == Some(n.counters[i]) {
      IntToStringParses(n.counters[i]);
    }
  }

  /** The number `next_number` returns has exactly `level` components, the last one the
      incremented counter. */
  lemma NextNumberComponents(n: Numberer, level: int, c: char)
    requires Valid(n) && 1 <= level <= n.maxLevel
    requires n.separator == [c] && !IsDigit(c) && c != '-'
    ensures var r := NextNumber(n, level); var parts := Split(r.text, {c});
      && |parts| == level
      && ParseInt(parts[level - 1]) == Some(n.counters[level - 1] + 1)
      && forall i :: 0 <= i < level - 1 ==> ParseInt(parts[i]) == Some(n.counters[i])
  {
    NumberComponents(NextNumber(n, level).numberer, level, c);
  }

  /** Synchronising to a number the numberer itself would print at that level and then asking
      for the current number gives that number back, whichever full stop separates it. */
  lemma SyncThenGet(n: Numberer, xs: seq<int>, c: char)
    requires Valid(n) && 1 <= |xs| <= n.maxLevel
    requires c in NumberSeps && n.separator == [c]
    ensures var number := Join(Render(xs), [c]);
      GetCurrentNumber(SyncToExisting(n, number, |xs|), |xs|) == number
  {
    SyncCounters(n, xs, c);
  }

  /** After synchronising to a printed number at its own level, the next number at that level
      continues it: the same components with the last one incremented. */
  lemma SyncThenNext(n: Numberer, xs: seq<int>, c: char)
    requires Valid(n) && 1 <= |xs| <= n.maxLevel
    requires c in NumberSeps && n.separator == [c]
    ensures var number := Join(Render(xs), [c]);
      NextNumber(SyncToExisting(n, number, |xs|), |xs|).text
        == Join(Render(xs[|xs| - 1 := xs[|xs| - 1] + 1]), [c])
  {
    SyncCounters(n, xs, c);
    NextContinues(SyncToExisting(n, Join(Render(xs), [c]), |xs|), xs, c);
  }

  /** A numberer whose first counters are `xs` numbers the next heading at that level as `xs`
      with the last component incremented. */
  lemma NextContinues(n: Numberer, xs: seq<int>, c: char)
    requires Valid(n) && 1 <= |xs| <= n.maxLevel
    requires n.separator == [c] && n.counters[..|xs|] == xs
    ensures NextNumber(n, |xs|).text == Join(Render(xs[|xs| - 1 := xs[|xs| - 1] + 1]), [c])
  {
    var level := |xs|;
    var next := NextNumber(n, level);
    var bumped := xs[level - 1 := xs[level - 1] + 1];
    assert next.numberer.counters[..level] == bumped by {
      NextPrefix(n, level);
      assert n.counters[level - 1] == xs[level - 1];
    }
    assert next.text == Join(Render(next.numberer.counters[..level]), [c]);
  }

  /** The first `level` counters after `next_number`: the last of them incremented. */
  lemma NextPrefix(n: Numberer, level: int)
    requires Valid(n) && 1 <= level <= n.maxLevel
    ensures NextNumber(n, level).numberer.counters[..level]
      == n.counters[..level][level - 1 := n.counters[level - 1] + 1]
  {
  }

  /** The counters `SyncThenGet` reads back are the components themselves. */
  lemma SyncCounters(n: Numberer, xs: seq<int>, c: char)
    requires Valid(n) && 1 <= |xs| <= Depth
    requires c in NumberSeps
    ensures SyncToExisting(n, Join(Render(xs), [c]), |xs|).counters[..|xs|] == xs
  {
    var parts := Render(xs);
    forall k | 0 <= k < |parts| ensures Avoids(parts[k], NumberSeps) {
      IntToStringAvoids(xs[k], NumberSeps);
    }
    SplitJoinPlain(parts, c, NumberSeps);
    forall i | 0 <= i < |xs| ensures ParseInt(parts[i]) == Some(xs[i]) {
      IntToStringParses(xs[i]);
    }
  }
}
