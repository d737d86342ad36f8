/** The keyword-line normalisers of the renderer: Chinese keywords rejoined with a full-width
    space, English keywords with "; ". */
module Keywords {
  import opened Text

  /** What separates Chinese keywords: commas and semicolons of either width, and whitespace. */
  const CnSeps: set<char> := {'，', ',', ';', '；'} + Whitespace

  /** What separates English keywords: semicolons and commas of either width. */
  const EnSeps: set<char> := {';', '；', ',', '，'}

  const FullWidthSpace: char := '\U{3000}'

  /** The pieces that are not empty, in order. */
  function NonEmpty(parts: seq<string>): (r: seq<string>)
    ensures |r| <= |parts|
    ensures forall k :: 0 <= k < |r| ==> r[k] != [] && r[k] in parts
    ensures (forall k :: 0 <= k < |parts| ==> parts[k] != []) ==> r == parts
    ensures Concat(r) == Concat(parts)
  {
    if parts == [] then []
    else
      var rest := NonEmpty(parts[1..]);
      if parts[0] == [] then rest else [parts[0]] + rest
  }

  /** Dropping empty pieces works piece by piece: it never merges pieces. */
  lemma {:induction false} NonEmptyAppend(p: seq<string>, q: seq<string>)
    ensures NonEmpty(p + q) == NonEmpty(p) + NonEmpty(q)
    decreases |p|
  {
    if p != [] {
      assert (p + q)[0] == p[0] && (p + q)[1..] == p[1..] + q;
      NonEmptyAppend(p[1..], q);
    } else {
      assert p + q == q;
    }
  }

  /** Every piece stripped of surrounding whitespace. */
  function StripAll(parts: seq<string>): (r: seq<string>)
    ensures |r| == |parts|
    ensures forall k :: 0 <= k < |r| ==> r[k] == Strip(parts[k])
  {
    if parts == [] then [] else [Strip(parts[0])] + StripAll(parts[1..])
  }

  /** The Chinese keywords of a line: the non-empty pieces between separators. Splitting on
      single separators and dropping the empty pieces gives the same pieces as splitting on
      runs of separators and dropping the empty ones. */
  function CnPieces(txt: string): (r: seq<string>)
    ensures forall k :: 0 <= k < |r| ==> r[k] != [] && Avoids(r[k], CnSeps)
    ensures Concat(r) == RemoveAll(txt, CnSeps)
  {
    ConcatSplit(txt, CnSeps);
    NonEmpty(Split(txt, CnSeps))
  }

  /** A separator between two parts of a line separates their keywords: the keywords of the
      line are those of the part before it followed by those of the part after it. */
  lemma CnPiecesSeparate(a: string, c: char, b: string)
    requires c in CnSeps
    ensures CnPieces(a + [c] + b) == CnPieces(a) + CnPieces(b)
  {
    SplitAround(a, c, b, CnSeps);
    NonEmptyAppend(Split(a, CnSeps), Split(b, CnSeps));
  }

  /** Text without a separator is one keyword, or none when it is empty. With
      `CnPiecesSeparate` this fixes the keywords of every line. */
  lemma CnPiecesPlain(t: string)
    requires Avoids(t, CnSeps)
    ensures CnPieces(t) == if t == [] then [] else [t]
  {
    SplitAvoiding(t, CnSeps);
    NonEmptySingle(t);
  }

  /** `_normalize_cn_keywords`: the keywords joined with one full-width space. Nothing but
      separators is removed, and the only separator left is that space. */
  function NormalizeCn(txt: string): (r: string)
    ensures RemoveAll(r, CnSeps) == RemoveAll(txt, CnSeps)
    ensures OnlySeparator(r, FullWidthSpace, CnSeps)
  {
    CnJoinFacts(txt);
    Join(CnPieces(txt), [FullWidthSpace])
  }

  lemma CnJoinFacts(txt: string)
    ensures var r := Join(CnPieces(txt), [FullWidthSpace]);
      && RemoveAll(r, CnSeps) == RemoveAll(txt, CnSeps)
      && OnlySeparator(r, FullWidthSpace, CnSeps)
  {
    var pieces := CnPieces(txt);
    var r := Join(pieces, [FullWidthSpace]);
    ConcatSplit(txt, CnSeps);
    if pieces != [] {
      SplitJoinPlain(pieces, FullWidthSpace, CnSeps);
      ConcatSplit(r, CnSeps);
    }
    assert [FullWidthSpace] + [] == [FullWidthSpace];
    JoinOnlySeparator(pieces, FullWidthSpace, [], CnSeps);
  }

  /** Of the characters in `seps`, only `c` occurs in `s`. */
  predicate OnlySeparator(s: string, c: char, seps: set<char>) {
    forall i :: 0 <= i < |s| && s[i] in seps ==> s[i] == c
  }

  /** A separator character found in text joined with `c` followed by a separator-free `pad`
      is `c` itself. */
  lemma {:induction false} JoinOnlySeparator(parts: seq<string>, c: char, pad: string, seps: set<char>)
    requires Avoids(pad, seps)
    requires forall k :: 0 <= k < |parts| ==> Avoids(parts[k], seps)
    ensures OnlySeparator(Join(parts, [c] + pad), c, seps)
    decreases |parts|
  {
    if |parts| > 1 {
      JoinOnlySeparator(parts[1..], c, pad, seps);
      var tail := Join(parts[1..], [c] + pad);
      var j := Join(parts, [c] + pad);
      assert j == parts[0] + ([c] + pad) + tail;
      forall i | 0 <= i < |j| && j[i] in seps ensures j[i] == c {
        if i > |parts[0]| + |pad| {
          assert j[i] == tail[i - |parts[0]| - 1 - |pad|];
        }
      }
    }
  }

  /** The normalised line splits into exactly its keywords: no piece is empty. */
  lemma NormalizeCnSplits(txt: string)
    requires CnPieces(txt) != []
    ensures Split(NormalizeCn(txt), CnSeps) == CnPieces(txt)
  {
    SplitJoinPlain(CnPieces(txt), FullWidthSpace, CnSeps);
  }

  /** Normalising keeps the keywords, so normalising twice is normalising once. */
  lemma NormalizeCnIdempotent(txt: string)
    ensures CnPieces(NormalizeCn(txt)) == CnPieces(txt)
    ensures NormalizeCn(NormalizeCn(txt)) == NormalizeCn(txt)
  {
    var pieces := CnPieces(txt);
    if pieces != [] {
      NormalizeCnSplits(txt);
    } else {
      assert NormalizeCn(txt) == [];
      assert Split([], CnSeps) == [[]];
    }
  }

  /** What the English normaliser may drop or insert: separators and whitespace. */
  const EnBlank: set<char> := EnSeps + Whitespace

  /** The English keywords of a line: the pieces between separators, stripped, the empty ones
      dropped. Apart from separators and whitespace, they hold exactly the line's characters,
      in order. */
  function EnPieces(txt: string): (r: seq<string>)
    ensures forall k :: 0 <= k < |r| ==> r[k] != [] && IsStripped(r[k]) && Avoids(r[k], EnSeps)
    ensures RemoveAll(Concat(r), EnBlank) == RemoveAll(txt, EnBlank)
  {
    var stripped := StripAll(Split(txt, EnSeps));
    StrippedPieces(Split(txt, EnSeps), EnSeps);
    NonEmptyKeeps(stripped, EnSeps);
    EnPiecesContent(txt);
    NonEmpty(stripped)
  }

  /** Splitting on separators and stripping the pieces removes only separators and whitespace. */
  lemma EnPiecesContent(txt: string)
    ensures RemoveAll(Concat(StripAll(Split(txt, EnSeps))), EnBlank) == RemoveAll(txt, EnBlank)
  {
    BlankHoldsSpace();
    RemoveAllStripAll(Split(txt, EnSeps), EnBlank);
    ConcatSplit(txt, EnSeps);
    RemoveAllTwice(txt, EnSeps, EnBlank);
  }

  lemma BlankHoldsSpace()
    ensures EnSeps <= EnBlank
    ensures forall c :: IsSpace(c) ==> c in EnBlank
  {
    forall c | IsSpace(c) ensures c in EnBlank {
      WhitespaceIsSpace(c);
    }
  }

  /** Stripping every piece removes only whitespace from their concatenation. */
  lemma {:induction false} RemoveAllStripAll(parts: seq<string>, seps: set<char>)
    requires forall c :: IsSpace(c) ==> c in seps
    ensures RemoveAll(Concat(StripAll(parts)), seps) == RemoveAll(Concat(parts), seps)
    decreases |parts|
  {
    if parts != [] {
      var st := StripAll(parts);
      assert st[1..] == StripAll(parts[1..]);
      RemoveAllStripAll(parts[1..], seps);
      RemoveAllAppend(st[0], Concat(st[1..]), seps);
      RemoveAllAppend(parts[0], Concat(parts[1..]), seps);
      RemoveAllStrip(parts[0], seps);
    }
  }

  /** Every piece is stripped and holds no separator. */
  predicate CleanPieces(parts: seq<string>, seps: set<char>) {
    forall k :: 0 <= k < |parts| ==> IsStripped(parts[k]) && Avoids(parts[k], seps)
  }

  /** Stripping separator-free pieces leaves them separator-free. */
  lemma StrippedPieces(parts: seq<string>, seps: set<char>)
    requires forall k :: 0 <= k < |parts| ==> Avoids(parts[k], seps)
    ensures CleanPieces(StripAll(parts), seps)
  {
    forall k | 0 <= k < |parts| ensures Avoids(StripAll(parts)[k], seps) {
      StripAvoids(parts[k], seps);
    }
  }

  /** Dropping the empty pieces keeps clean pieces clean. */
  lemma {:induction false} NonEmptyKeeps(parts: seq<string>, seps: set<char>)
    requires CleanPieces(parts, seps)
    ensures CleanPieces(NonEmpty(parts), seps)
    decreases |parts|
  {
    if parts != [] {
      NonEmptyKeeps(parts[1..], seps);
      var rest := NonEmpty(parts[1..]);
      assert parts[0] == [] ==> NonEmpty(parts) == rest;
      assert parts[0] != [] ==> NonEmpty(parts) == [parts[0]] + rest;
    }
  }

  /** Stripping only removes characters. */
  lemma StripAvoids(s: string, seps: set<char>)
    requires Avoids(s, seps)
    ensures Avoids(Strip(s), seps)
  {
    var t := TrimStart(s);
    SliceAvoids(s, |s| - |t|, |s|, seps);
    assert t == s[|s| - |t|..|s|];
    SliceAvoids(t, 0, |TrimEnd(t)|, seps);
    assert TrimEnd(t) == t[0..|TrimEnd(t)|];
  }

  /** `_normalize_en_keywords`: the keywords joined with "; ". Apart from separators and
      whitespace the line keeps exactly its characters, and the only separator left is the
      ASCII semicolon. */
  function NormalizeEn(txt: string): (r: string)
    ensures EnPieces(txt) == [] <==> r == []
    ensures RemoveAll(r, EnBlank) == RemoveAll(txt, EnBlank)
    ensures OnlySeparator(r, ';', EnSeps)
  {
    JoinNonEmpty(EnPieces(txt), "; ");
    EnJoinFacts(EnPieces(txt));
    Join(EnPieces(txt), "; ")
  }

  /** Joining separator-free pieces with "; " inserts only separators and whitespace, and no
      separator but ';'. */
  lemma EnJoinFacts(pieces: seq<string>)
    requires forall k :: 0 <= k < |pieces| ==> Avoids(pieces[k], EnSeps)
    ensures RemoveAll(Join(pieces, "; "), EnBlank) == RemoveAll(Concat(pieces), EnBlank)
    ensures OnlySeparator(Join(pieces, "; "), ';', EnSeps)
  {
    EnSeparator();
    assert forall i :: 0 <= i < |"; "| ==> "; "[i] in EnBlank;
    RemoveAllJoin(pieces, "; ", EnBlank);
    JoinOnlySeparator(pieces, ';', " ", EnSeps);
  }

  /** Joining non-empty pieces gives "" only when there are none. */
  lemma JoinNonEmpty(parts: seq<string>, sep: string)
    requires forall k :: 0 <= k < |parts| ==> parts[k] != []
    ensures Join(parts, sep) == [] <==> parts == []
  {
    if |parts| > 1 {
      assert Join(parts, sep) == parts[0] + sep + Join(parts[1..], sep);
    }
  }

  /** The normalised line splits into its first keyword and the others, each after the one
      space of the separator: no keyword is empty or split further. */
  lemma NormalizeEnSplits(txt: string)
    requires EnPieces(txt) != []
    ensures var pieces := EnPieces(txt);
      Split(NormalizeEn(txt), EnSeps) == [pieces[0]] + PadAll(" ", pieces[1..])
  {
    EnJoinSplits(EnPieces(txt));
  }

  lemma EnJoinSplits(pieces: seq<string>)
    requires pieces != []
    requires forall k :: 0 <= k < |pieces| ==> Avoids(pieces[k], EnSeps)
    ensures Split(Join(pieces, "; "), EnSeps) == [pieces[0]] + PadAll(" ", pieces[1..])
  {
    EnSeparator();
    SplitJoinSep(pieces, ';', " ", "; ", EnSeps);
  }

  /** "; " is a separator character followed by a space that is not one. */
  lemma EnSeparator()
    ensures "; " == [';'] + " " && ';' in EnSeps && Avoids(" ", EnSeps)
  {
  }

  /** Normalising keeps the keywords, so normalising twice is normalising once. */
  lemma NormalizeEnIdempotent(txt: string)
    ensures EnPieces(NormalizeEn(txt)) == EnPieces(txt)
    ensures NormalizeEn(NormalizeEn(txt)) == NormalizeEn(txt)
  {
    var pieces := EnPieces(txt);
    assert NormalizeEn(txt) == Join(pieces, "; ");
    if pieces != [] {
      EnPiecesOfJoin(pieces);
    } else {
      EnPiecesOfEmpty();
    }
  }

  /** The keywords of a line joined from keywords are those keywords. */
  lemma EnPiecesOfJoin(pieces: seq<string>)
    requires pieces != []
    requires forall k :: 0 <= k < |pieces| ==> pieces[k] != [] && IsStripped(pieces[k]) && Avoids(pieces[k], EnSeps)
    ensures EnPieces(Join(pieces, "; ")) == pieces
  {
    EnJoinSplits(pieces);
    StripPadded(pieces);
  }

  /** A separator between two parts of a line separates their keywords. */
  lemma EnPiecesSeparate(a: string, c: char, b: string)
    requires c in EnSeps
    ensures EnPieces(a + [c] + b) == EnPieces(a) + EnPieces(b)
  {
    SplitAround(a, c, b, EnSeps);
    StrippedAppend(Split(a, EnSeps), Split(b, EnSeps));
  }

  /** Stripping and dropping empty pieces work piece by piece. */
  lemma StrippedAppend(p: seq<string>, q: seq<string>)
    ensures NonEmpty(StripAll(p + q)) == NonEmpty(StripAll(p)) + NonEmpty(StripAll(q))
  {
    StripAllAppend(p, q);
    NonEmptyAppend(StripAll(p), StripAll(q));
  }

  lemma {:induction false} StripAllAppend(p: seq<string>, q: seq<string>)
    ensures StripAll(p + q) == StripAll(p) + StripAll(q)
    decreases |p|
  {
    if p == [] {
      assert p + q == q;
    } else {
      assert (p + q)[0] == p[0] && (p + q)[1..] == p[1..] + q;
      StripAllAppend(p[1..], q);
    }
  }

  /** Text without a separator is one keyword, stripped, or none when only whitespace is left.
      With `EnPiecesSeparate` this fixes the keywords of every line. */
  lemma EnPiecesPlain(t: string)
    requires Avoids(t, EnSeps)
    ensures EnPieces(t) == if Strip(t) == [] then [] else [Strip(t)]
  {
    SplitAvoiding(t, EnSeps);
    StripOne(t);
  }

  lemma StripOne(t: string)
    ensures NonEmpty(StripAll([t])) == if Strip(t) == [] then [] else [Strip(t)]
  {
    assert StripAll([t]) == [Strip(t)];
    NonEmptySingle(Strip(t));
  }

  lemma NonEmptySingle(x: string)
    ensures NonEmpty([x]) == if x == [] then [] else [x]
  {
    assert [x][1..] == [];
  }

  lemma EnPiecesOfEmpty()
    ensures EnPieces([]) == []
  {
    assert Split([], EnSeps) == [[]];
    assert Strip([]) == [];
  }

  /** Stripping the pieces of a "; "-joined line undoes the one space of padding. */
  lemma StripPadded(pieces: seq<string>)
    requires pieces != []
    requires forall k :: 0 <= k < |pieces| ==> IsStripped(pieces[k])
    ensures StripAll([pieces[0]] + PadAll(" ", pieces[1..])) == pieces
  {
    var parts := [pieces[0]] + PadAll(" ", pieces[1..]);
    forall k | 0 <= k < |parts| ensures Strip(parts[k]) == pieces[k] {
      if k == 0 {
        StripStripped(pieces[0]);
      } else {
        assert parts[k] == [' '] + pieces[k];
        StripLeadingSpace(pieces[k]);
        StripStripped(pieces[k]);
      }
    }
  }
}
