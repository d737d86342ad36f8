/** The heading decisions of the renderer: which headings are front matter, the level a
    written number implies, the offset that makes the shallowest body heading level 1, the
    effective level clamped to [1, 3], and the style and text a heading is rendered with. */
module HeadingLevels {
  import opened Wrappers
  import opened Text
  import opened Numbering

  /** Headings set apart from the numbered body: abstract, keywords, acknowledgements,
      references and the table of contents. */
  const FrontHeadings: set<string> := {
    "摘要", "关键词", "关键字", "abstract", "key words", "keywords",
    "致谢", "谢辞", "参考文献", "references", "目录", "目 录"}

  /** The front headings that come before the main section (abstracts and keywords). */
  const FrontOnlyHeadings: set<string> := {
    "摘要", "关键词", "关键字", "abstract", "key words", "keywords"}

  /** `_is_front_heading`: the text, lower-cased or as it is, is a front heading. Every front
      heading is already lower case, so the exact-match test adds nothing to the case-insensitive
      one: a heading is front matter exactly when its lower-case form is one. */
  predicate IsFrontHeading(text: string)
    ensures IsFrontHeading(text) <==> Lower(text) in FrontHeadings
  {
    FrontIsLowerCase(text);
    Lower(text) in FrontHeadings || text in FrontHeadings
  }

  /** `_is_front_only_heading`, case-insensitive in the same way. */
  predicate IsFrontOnlyHeading(text: string)
    ensures IsFrontOnlyHeading(text) <==> Lower(text) in FrontOnlyHeadings
  {
    FrontIsLowerCase(text);
    Lower(text) in FrontOnlyHeadings || text in FrontOnlyHeadings
  }

  lemma LowerIdentity(s: string)
    requires forall i :: 0 <= i < |s| ==> !('A' <= s[i] <= 'Z')
    ensures Lower(s) == s
  {
  }

  /** Lower-casing a front heading leaves it unchanged. */
  lemma FrontIsLowerCase(text: string)
    ensures text in FrontHeadings ==> Lower(text) == text
  {
    if text in FrontHeadings {
      LowerIdentity(text);
    }
  }

  /** Front-only headings are front headings. */
  lemma FrontOnlyIsFront(text: string)
    ensures IsFrontOnlyHeading(text) ==> IsFrontHeading(text)
  {
  }

  /** How many times `c` occurs in `s`. */
  function Occurrences(s: string, c: char): nat {
    if s == [] then 0 else (if s[0] == c then 1 else 0) + Occurrences(s[1..], c)
  }

  lemma {:induction false} OccurrencesOfBoth(s: string, a: char, b: char)
    requires a != b
    ensures CountIn(s, {a, b}) == Occurrences(s, a) + Occurrences(s, b)
    decreases |s|
  {
    if s != [] {
      OccurrencesOfBoth(s[1..], a, b);
    }
  }

  /** `_infer_level_from_number`: 1 for "", otherwise one more than the number of full stops
      of either width. */
  function InferLevel(number: string): (r: int)
    ensures r >= 1
    ensures r == CountIn(number, NumberSeps) + 1
  {
    OccurrencesOfBoth(number, '.', '．');
    if number == [] then 1 else Occurrences(number, '.') + Occurrences(number, '．') + 1
  }

  /** The level inferred from a number is the number of its components. */
  lemma InferLevelComponents(number: string)
    ensures InferLevel(number) == |Split(number, NumberSeps)|
  {
  }

  /** A number printed by the numberer with either full stop implies the level it was printed at. */
  lemma InferLevelOfPrinted(n: Numberer, level: int, c: char)
    requires Valid(n) && 1 <= level <= n.maxLevel
    requires c in NumberSeps && n.separator == [c]
    ensures InferLevel(GetCurrentNumber(n, level)) == level
  {
    var xs := Render(n.counters[..level]);
    forall k | 0 <= k < |xs| ensures Avoids(xs[k], NumberSeps) {
      IntToStringAvoids(n.counters[k], NumberSeps);
    }
    SplitJoinPlain(xs, c, NumberSeps);
  }

  /** The document blocks the offset detection looks at: headings, and everything else. */
  datatype Block = Heading(level: int, text: string) | Other

  /** The shallowest level among the headings `keep` selects, if there is one. */
  function MinLevelWhere(blocks: seq<Block>, keep: Block -> bool): (r: Option<int>)
    decreases |blocks|
  {
    if blocks == [] then None
    else
      var rest := MinLevelWhere(blocks[1..], keep);
      if !(blocks[0].Heading? && keep(blocks[0])) then rest
      else if rest.None? || blocks[0].level < rest.value then Some(blocks[0].level)
      else rest
  }

  /** `MinLevelWhere` is absent exactly when no heading is selected, and otherwise is the level
      of some selected heading and at most the level of every selected heading. */
  lemma {:induction false} MinLevelWhereIsMin(blocks: seq<Block>, keep: Block -> bool)
    ensures var r := MinLevelWhere(blocks, keep);
      && (r.None? <==> forall i :: 0 <= i < |blocks| ==> !(blocks[i].Heading? && keep(blocks[i])))
      && (r.Some? ==>
            && (exists i :: 0 <= i < |blocks| && blocks[i].Heading? && keep(blocks[i]) && blocks[i].level == r.value)
            && (forall i :: 0 <= i < |blocks| && blocks[i].Heading? && keep(blocks[i]) ==> r.value <= blocks[i].level))
    decreases |blocks|
  {
    if blocks != [] {
      var tail := blocks[1..];
      MinLevelWhereIsMin(tail, keep);
      var rest := MinLevelWhere(tail, keep);
      assert forall i :: 1 <= i < |blocks| ==> blocks[i] == tail[i - 1];
      if rest.Some? {
        var j :| 0 <= j < |tail| && tail[j].Heading? && keep(tail[j]) && tail[j].level == rest.value;
        assert blocks[j + 1] == tail[j];
      }
    }
  }

  /** A heading whose stripped, lower-cased text is not front matter. */
  predicate IsBodyHeading(b: Block)
    ensures IsBodyHeading(b) <==> b.Heading? && !IsFrontHeading(Strip(b.text))
  {
    b.Heading? && Lower(Strip(b.text)) !in FrontHeadings
  }

  /** The shallowest level among the body headings, if there is one. */
  function MinBodyLevel(blocks: seq<Block>): (r: Option<int>)
    ensures r.None? <==> forall i :: 0 <= i < |blocks| ==> !IsBodyHeading(blocks[i])
    ensures r.Some? ==> exists i :: 0 <= i < |blocks| && IsBodyHeading(blocks[i]) && blocks[i].level == r.value
    ensures r.Some? ==> forall i :: 0 <= i < |blocks| && IsBodyHeading(blocks[i]) ==> r.value <= blocks[i].level
  {
    MinLevelWhereIsMin(blocks, IsBodyHeading);
    MinLevelWhere(blocks, IsBodyHeading)
  }

  /** `_detect_heading_level_offset`: how much to subtract from every heading level so that the
      shallowest body heading becomes level 1; 0 when there is no body heading or the
      shallowest is already at most 1. */
  function DetectOffset(blocks: seq<Block>): (r: int)
    ensures r >= 0
    ensures r > 0 <==> MinBodyLevel(blocks).Some? && MinBodyLevel(blocks).value > 1
    ensures r > 0 ==> r == MinBodyLevel(blocks).value - 1
  {
    match MinBodyLevel(blocks)
    case None => 0
    case Some(m) => if m <= 1 then 0 else m - 1
  }

  /** With the detected offset applied (and clamped below by 1), the shallowest body heading is
      at level 1 and no body heading falls below 1 before the clamp unless the offset is 0. */
  lemma OffsetNormalises(blocks: seq<Block>)
    requires exists i :: 0 <= i < |blocks| && IsBodyHeading(blocks[i])
    ensures var off := DetectOffset(blocks);
      && (exists i :: 0 <= i < |blocks| && IsBodyHeading(blocks[i]) && Max(1, blocks[i].level - off) == 1)
      && (off > 0 ==> forall i :: 0 <= i < |blocks| && IsBodyHeading(blocks[i]) ==> blocks[i].level - off >= 1)
  {
    MinLevelWhereIsMin(blocks, IsBodyHeading);
    var m := MinBodyLevel(blocks);
    var i :| 0 <= i < |blocks| && IsBodyHeading(blocks[i]) && blocks[i].level == m.value;
    assert Max(1, blocks[i].level - DetectOffset(blocks)) == 1;
  }

  /** No adjustment when there is no body heading or some body heading is already at level 1
      or above it. */
  lemma OffsetZero(blocks: seq<Block>)
    ensures (forall i :: 0 <= i < |blocks| ==> !IsBodyHeading(blocks[i])) ==> DetectOffset(blocks) == 0
    ensures (exists i :: 0 <= i < |blocks| && IsBodyHeading(blocks[i]) && blocks[i].level <= 1) ==> DetectOffset(blocks) == 0
  {
    MinLevelWhereIsMin(blocks, IsBodyHeading);
  }

  /** The level a heading is rendered at (lines 363-371): inferred from its written number when
      it has one, otherwise its own level less the offset and at least 1; at most 3 either way. */
  function EffectiveLevel(existingNumber: string, level: int, offset: int): (r: int)
    ensures 1 <= r <= 3
    ensures existingNumber != "" ==> r == Min(InferLevel(existingNumber), 3)
    ensures existingNumber == "" ==> r == Min(Max(1, level - offset), 3)
  {
    var base := if existingNumber != "" then InferLevel(existingNumber) else Max(1, level - offset);
    Min(base, 3)
  }

  /** Deeper headings are never rendered shallower. */
  lemma EffectiveLevelMonotone(l1: int, l2: int, offset: int)
    requires l1 <= l2
    ensures EffectiveLevel("", l1, offset) <= EffectiveLevel("", l2, offset)
  {
  }

  /** A numbered heading is rendered at the level of its number, up to 3. */
  lemma EffectiveLevelOfPrinted(n: Numberer, level: int, c: char, blockLevel: int, offset: int)
    requires Valid(n) && 1 <= level <= n.maxLevel
    requires c in NumberSeps && n.separator == [c]
    ensures EffectiveLevel(GetCurrentNumber(n, level), blockLevel, offset) == Min(level, 3)
  {
    InferLevelOfPrinted(n, level, c);
  }

  datatype Style = FrontHeading | H1 | H2 | H3

  /** The style of a body heading at an effective level: H1 and H2 for levels 1 and 2, H3 for
      every other level. */
  function StyleFor(level: int): (s: Style)
    ensures s != FrontHeading
    ensures s == H1 <==> level == 1
    ensures s == H2 <==> level == 2
    ensures s == H3 <==> level != 1 && level != 2
  {
    if level == 1 then H1 else if level == 2 then H2 else H3
  }

  /** What a heading becomes: its style, its displayed text, and the numberer afterwards. */
  datatype Rendered = Rendered(style: Style, display: string, numberer: Option<Numberer>)

  /** Lines 358-393 of `render_docx` for one heading, given its stripped text with any written
      number removed (`existingNumber`, "" when there is none). Front headings keep their text
      and leave the numberer alone; other headings get the style of their effective level and,
      when numbering is on and the level is within the numbered depth, either keep their written
      number (synchronising the numberer to it) or get the next number. */
  function RenderHeading(text: string, existingNumber: string, blockLevel: int, offset: int,
                         numberer: Option<Numberer>, numberedDepth: int, suffix: string): (r: Rendered)
    requires numberer.Some? ==> Valid(numberer.value)
    ensures r.numberer.Some? <==> numberer.Some?
    ensures r.numberer.Some? ==> Valid(r.numberer.value)
    ensures IsFrontHeading(text) ==> r == Rendered(FrontHeading, text, numberer)
    ensures !IsFrontHeading(text) ==>
      var level := EffectiveLevel(existingNumber, blockLevel, offset);
      && r.style == StyleFor(level)
      && (numberer.None? || level > numberedDepth ==> r.display == text && r.numberer == numberer)
      && (numberer.Some? && level <= numberedDepth && existingNumber != "" ==>
            && r.display == existingNumber + suffix + text
            && r.numberer == Some(SyncToExisting(numberer.value, existingNumber, level)))
      && (numberer.Some? && level <= numberedDepth && existingNumber == "" ==>
            var next := NextNumber(numberer.value, level);
            && r.display == next.text + suffix + text
            && r.numberer == Some(next.numberer))
  {
    if IsFrontHeading(text) then Rendered(FrontHeading, text, numberer)
    else
      var level := EffectiveLevel(existingNumber, blockLevel, offset);
      var style := StyleFor(level);
      match numberer
      case None => Rendered(style, text, None)
      case Some(n) =>
        if level > numberedDepth then Rendered(style, text, numberer)
        else if existingNumber != "" then
          Rendered(style, existingNumber + suffix + text, Some(SyncToExisting(n, existingNumber, level)))
        else
          var next := NextNumber(n, level);
          Rendered(style, next.text + suffix + text, Some(next.numberer))
  }

  /** With the numberer built as the renderer builds it, an unnumbered body heading within the
      numbered depth always receives a non-empty number of exactly its effective level's
      components. */
  lemma AutoNumberHasLevelComponents(text: string, blockLevel: int, offset: int, n: Numberer,
                                     numberedDepth: int, c: char)
    requires Valid(n) && n.maxLevel == Min(numberedDepth, Depth)
    requires n.separator == [c] && !IsDigit(c) && c != '-'
    requires !IsFrontHeading(text)
    requires EffectiveLevel("", blockLevel, offset) <= numberedDepth
    ensures var level := EffectiveLevel("", blockLevel, offset);
      var next := NextNumber(n, level);
      && next.text != ""
      && |Split(next.text, {c})| == level
  {
    var level := EffectiveLevel("", blockLevel, offset);
    NextNumberComponents(n, level, c);
  }
}
