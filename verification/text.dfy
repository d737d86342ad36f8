/** String helpers with Python's meaning: whitespace, `strip`, `lower`, `re.split` on a
    character class, `sep.join`, `str(int)` and `int(str)`. */
module Text {
  import opened Wrappers

  /** The characters Python's `str.isspace` (and the regex class `\s`) treat as whitespace. */
  predicate IsSpace(c: char) {
    || c == ' '
    || ('\t' <= c <= '\r')
    || ('\U{1C}' <= c <= '\U{1F}')
    || c == '\U{85}'
    || c == '\U{A0}'
    || c == '\U{1680}'
    || ('\U{2000}' <= c <= '\U{200A}')
    || c == '\U{2028}'
    || c == '\U{2029}'
    || c == '\U{202F}'
    || c == '\U{205F}'
    || c == '\U{3000}'
  }

  /** The same whitespace characters as a set, for splitting on them. */
  const Whitespace: set<char> := {
    ' ', '\t', '\n', '\U{0B}', '\U{0C}', '\r', '\U{1C}', '\U{1D}', '\U{1E}', '\U{1F}',
    '\U{85}', '\U{A0}', '\U{1680}',
    '\U{2000}', '\U{2001}', '\U{2002}', '\U{2003}', '\U{2004}', '\U{2005}', '\U{2006}',
    '\U{2007}', '\U{2008}', '\U{2009}', '\U{200A}',
    '\U{2028}', '\U{2029}', '\U{202F}', '\U{205F}', '\U{3000}'}

  lemma WhitespaceIsSpace(c: char)
    ensures c in Whitespace <==> IsSpace(c)
  {
  }

  /** No character of `s` belongs to `seps`. */
  predicate Avoids(s: string, seps: set<char>) {
    forall i :: 0 <= i < |s| ==> s[i] !in seps
  }

  /** How many characters of `s` belong to `seps`. */
  function CountIn(s: string, seps: set<char>): nat {
    if s == [] then 0 else (if s[0] in seps then 1 else 0) + CountIn(s[1..], seps)
  }

  /** `s` with every character of `seps` removed. */
  function RemoveAll(s: string, seps: set<char>): (r: string)
    ensures Avoids(r, seps)
  {
    if s == [] then []
    else if s[0] in seps then RemoveAll(s[1..], seps)
    else [s[0]] + RemoveAll(s[1..], seps)
  }

  /** Python's `re.split` on a one-character class: the pieces between separators, empty
      pieces included, so there is always one more piece than there are separators. */
  function Split(s: string, seps: set<char>): (r: seq<string>)
    ensures |r| == CountIn(s, seps) + 1
    ensures forall k :: 0 <= k < |r| ==> Avoids(r[k], seps)
    decreases |s|
  {
    if s == [] then [[]]
    else
      var rest := Split(s[1..], seps);
      if s[0] in seps then [[]] + rest
      else
        var head := [s[0]] + rest[0];
        assert Avoids(head, seps) by {
          forall i | 0 <= i < |head| ensures head[i] !in seps {
            if i > 0 { assert head[i] == rest[0][i - 1]; }
          }
        }
        [head] + rest[1..]
  }

  /** Python's `sep.join(parts)`. */
  function Join(parts: seq<string>, sep: string): string {
    if |parts| == 0 then []
    else if |parts| == 1 then parts[0]
    else parts[0] + sep + Join(parts[1..], sep)
  }

  /** The concatenation of all pieces. */
  function Concat(parts: seq<string>): string {
    if parts == [] then [] else parts[0] + Concat(parts[1..])
  }

  /** `pad` put in front of every piece. */
  function PadAll(pad: string, parts: seq<string>): (r: seq<string>)
    ensures |r| == |parts|
    ensures forall k :: 0 <= k < |r| ==> r[k] == pad + parts[k]
  {
    seq(|parts|, k requires 0 <= k < |parts| => pad + parts[k])
  }

  lemma {:induction false} SplitAvoiding(s: string, seps: set<char>)
    requires Avoids(s, seps)
    ensures Split(s, seps) == [s]
    decreases |s|
  {
    if s != [] {
      SplitAvoiding(s[1..], seps);
      assert [s[0]] + s[1..] == s;
    }
  }

  /** A separator-free prefix glues onto the first piece of the rest. */
  lemma {:induction false} SplitAfterPrefix(p: string, x: string, seps: set<char>)
    requires Avoids(p, seps)
    ensures Split(p + x, seps) == [p + Split(x, seps)[0]] + Split(x, seps)[1..]
    decreases |p|
  {
    if p != [] {
      var s := p + x;
      assert s[0] == p[0] && p[0] !in seps;
      assert s[1..] == p[1..] + x;
      SplitAfterPrefix(p[1..], x, seps);
      var rest := Split(s[1..], seps);
      assert rest == [p[1..] + Split(x, seps)[0]] + Split(x, seps)[1..];
      assert Split(s, seps) == [[s[0]] + rest[0]] + rest[1..];
      assert [p[0]] + (p[1..] + Split(x, seps)[0]) == p + Split(x, seps)[0];
    } else {
      var pieces := Split(x, seps);
      assert p + x == x && p + pieces[0] == pieces[0];
      assert [pieces[0]] + pieces[1..] == pieces;
    }
  }

  /** A separator character ends the pieces of the text before it and starts those of the text
      after it: it never merges two pieces, and it never disappears into one. */
  lemma {:induction false} SplitAround(a: string, c: char, b: string, seps: set<char>)
    requires c in seps
    ensures Split(a + [c] + b, seps) == Split(a, seps) + Split(b, seps)
    decreases |a|
  {
    if a == [] {
      assert a + [c] + b == [c] + b;
      SplitConsSep(c, b, seps);
    } else {
      var x, rest := a[0], a[1..];
      assert a == [x] + rest;
      assert a + [c] + b == [x] + (rest + [c] + b);
      SplitAround(rest, c, b, seps);
      SplitAroundStep(x, rest, rest + [c] + b, Split(b, seps), seps);
    }
  }

  /** Putting one character in front of two texts whose pieces differ by a common tail of
      pieces keeps that difference. */
  lemma SplitAroundStep(x: char, rest: string, t: string, tail: seq<string>, seps: set<char>)
    requires Split(t, seps) == Split(rest, seps) + tail
    ensures Split([x] + t, seps) == Split([x] + rest, seps) + tail
  {
    if x in seps {
      SplitConsSep(x, t, seps);
      SplitConsSep(x, rest, seps);
      SeqAssoc([[]], Split(rest, seps), tail);
    } else {
      var pr := Split(rest, seps);
      SplitConsPlain(x, t, seps);
      SplitConsPlain(x, rest, seps);
      SplitsHead(pr, tail);
      SeqAssoc([[x] + pr[0]], pr[1..], tail);
    }
  }

  /** A leading separator starts an empty piece. */
  lemma SplitConsSep(x: char, t: string, seps: set<char>)
    requires x in seps
    ensures Split([x] + t, seps) == [[]] + Split(t, seps)
  {
    assert ([x] + t)[0] == x && ([x] + t)[1..] == t;
  }

  /** Any other leading character joins the first piece. */
  lemma SplitConsPlain(x: char, t: string, seps: set<char>)
    requires x !in seps
    ensures Split([x] + t, seps) == [[x] + Split(t, seps)[0]] + Split(t, seps)[1..]
  {
    assert ([x] + t)[0] == x && ([x] + t)[1..] == t;
  }

  lemma SeqAssoc<T>(p: seq<T>, q: seq<T>, r: seq<T>)
    ensures p + (q + r) == (p + q) + r
  {
  }

  lemma SplitsHead(p: seq<string>, q: seq<string>)
    requires p != []
    ensures (p + q)[0] == p[0] && (p + q)[1..] == p[1..] + q
  {
  }

  /** Splitting text joined with one separator character followed by `pad` recovers the
      pieces, each but the first carrying `pad` in front. */
  lemma {:induction false} SplitJoin(parts: seq<string>, c: char, pad: string, seps: set<char>)
    requires |parts| >= 1
    requires c in seps
    requires Avoids(pad, seps)
    requires forall k :: 0 <= k < |parts| ==> Avoids(parts[k], seps)
    ensures Split(Join(parts, [c] + pad), seps) == [parts[0]] + PadAll(pad, parts[1..])
    decreases |parts|
  {
    if |parts| == 1 {
      SplitAvoiding(parts[0], seps);
    } else {
      var rest := parts[1..];
      var tail := Join(rest, [c] + pad);
      assert Join(parts, [c] + pad) == parts[0] + ([c] + (pad + tail));
      SplitAfterPrefix(parts[0], [c] + (pad + tail), seps);
      assert ([c] + (pad + tail))[1..] == pad + tail;
      assert Split([c] + (pad + tail), seps) == [[]] + Split(pad + tail, seps);
      SplitJoin(rest, c, pad, seps);
      SplitAfterPrefix(pad, tail, seps);
      assert Split(pad + tail, seps) == PadAll(pad, rest);
      assert parts[0] + [] == parts[0];
    }
  }

  /** `SplitJoin` for a separator string given whole. */
  lemma SplitJoinSep(parts: seq<string>, c: char, pad: string, sep: string, seps: set<char>)
    requires sep == [c] + pad
    requires |parts| >= 1
    requires c in seps
    requires Avoids(pad, seps)
    requires forall k :: 0 <= k < |parts| ==> Avoids(parts[k], seps)
    ensures Split(Join(parts, sep), seps) == [parts[0]] + PadAll(pad, parts[1..])
  {
    SplitJoin(parts, c, pad, seps);
  }

  /** Splitting text joined with one separator character recovers the pieces. */
  lemma SplitJoinPlain(parts: seq<string>, c: char, seps: set<char>)
    requires |parts| >= 1
    requires c in seps
    requires forall k :: 0 <= k < |parts| ==> Avoids(parts[k], seps)
    ensures Split(Join(parts, [c]), seps) == parts
  {
    calc {
      Split(Join(parts, [c]), seps);
      { assert [c] + [] == [c]; }
      Split(Join(parts, [c] + []), seps);
      { SplitJoin(parts, c, [], seps); }
      [parts[0]] + PadAll([], parts[1..]);
      { PadNothing(parts[1..]); }
      [parts[0]] + parts[1..];
      parts;
    }
  }

  /** Padding with nothing changes nothing. */
  lemma PadNothing(parts: seq<string>)
    ensures PadAll([], parts) == parts
  {
    forall k | 0 <= k < |parts| ensures PadAll([], parts)[k] == parts[k] {
      assert [] + parts[k] == parts[k];
    }
  }

  /** A slice of separator-free text is separator-free. */
  lemma SliceAvoids(s: string, lo: int, hi: int, seps: set<char>)
    requires Avoids(s, seps) && 0 <= lo <= hi <= |s|
    ensures Avoids(s[lo..hi], seps)
  {
    assert forall i :: 0 <= i < hi - lo ==> s[lo..hi][i] == s[lo + i];
  }

  /** The pieces of a split, put back together, are the text without its separators. */
  lemma {:induction false} ConcatSplit(s: string, seps: set<char>)
    ensures Concat(Split(s, seps)) == RemoveAll(s, seps)
    decreases |s|
  {
    if s != [] {
      ConcatSplit(s[1..], seps);
      var rest := Split(s[1..], seps);
      if s[0] !in seps {
        assert Concat([[s[0]] + rest[0]] + rest[1..]) == [s[0]] + rest[0] + Concat(rest[1..]);
        assert Concat(rest) == rest[0] + Concat(rest[1..]);
      } else {
        assert Concat([[]] + rest) == Concat(rest);
      }
    }
  }

  lemma {:induction false} RemoveAllAppend(a: string, b: string, seps: set<char>)
    ensures RemoveAll(a + b, seps) == RemoveAll(a, seps) + RemoveAll(b, seps)
    decreases |a|
  {
    if a == [] {
      assert a + b == b;
    } else {
      assert (a + b)[0] == a[0] && (a + b)[1..] == a[1..] + b;
      RemoveAllAppend(a[1..], b, seps);
      if a[0] in seps {
        assert RemoveAll(a + b, seps) == RemoveAll(a[1..] + b, seps);
      } else {
        assert RemoveAll(a + b, seps) == [a[0]] + RemoveAll(a[1..] + b, seps);
      }
    }
  }

  /** Removing characters from text made only of them leaves nothing. */
  lemma {:induction false} RemoveAllInside(s: string, seps: set<char>)
    requires forall i :: 0 <= i < |s| ==> s[i] in seps
    ensures RemoveAll(s, seps) == []
    decreases |s|
  {
    if s != [] {
      RemoveAllInside(s[1..], seps);
    }
  }

  /** Removing a subset first changes nothing. */
  lemma {:induction false} RemoveAllTwice(s: string, inner: set<char>, seps: set<char>)
    requires inner <= seps
    ensures RemoveAll(RemoveAll(s, inner), seps) == RemoveAll(s, seps)
    decreases |s|
  {
    if s != [] {
      RemoveAllTwice(s[1..], inner, seps);
      if s[0] !in inner {
        var t := [s[0]] + RemoveAll(s[1..], inner);
        assert t[0] == s[0] && t[1..] == RemoveAll(s[1..], inner);
      }
    }
  }

  /** Text joined with a separator made of removed characters loses the same characters as
      the plain concatenation. */
  lemma {:induction false} RemoveAllJoin(parts: seq<string>, sep: string, seps: set<char>)
    requires forall i :: 0 <= i < |sep| ==> sep[i] in seps
    ensures RemoveAll(Join(parts, sep), seps) == RemoveAll(Concat(parts), seps)
    decreases |parts|
  {
    if |parts| == 1 {
      assert parts[1..] == [] && Concat(parts) == parts[0] + [] && parts[0] + [] == parts[0];
    } else if |parts| > 1 {
      var rest := parts[1..];
      RemoveAllJoin(rest, sep, seps);
      assert Join(parts, sep) == (parts[0] + sep) + Join(rest, sep);
      RemoveAllAppend(parts[0] + sep, Join(rest, sep), seps);
      RemoveAllAppend(parts[0], sep, seps);
      RemoveAllInside(sep, seps);
      RemoveAllAppend(parts[0], Concat(rest), seps);
    }
  }

  /** Stripping removes whitespace only. */
  lemma RemoveAllStrip(s: string, seps: set<char>)
    requires forall c :: IsSpace(c) ==> c in seps
    ensures RemoveAll(Strip(s), seps) == RemoveAll(s, seps)
  {
    RemoveAllTrimStart(s, seps);
    RemoveAllTrimEnd(TrimStart(s), seps);
  }

  lemma RemoveAllTrimStart(s: string, seps: set<char>)
    requires forall c :: IsSpace(c) ==> c in seps
    ensures RemoveAll(TrimStart(s), seps) == RemoveAll(s, seps)
  {
    var t := TrimStart(s);
    var lead := s[..|s| - |t|];
    assert s == lead + t;
    RemoveAllAppend(lead, t, seps);
    assert forall i :: 0 <= i < |lead| ==> lead[i] == s[i];
    RemoveAllInside(lead, seps);
  }

  lemma RemoveAllTrimEnd(s: string, seps: set<char>)
    requires forall c :: IsSpace(c) ==> c in seps
    ensures RemoveAll(TrimEnd(s), seps) == RemoveAll(s, seps)
  {
    var r := TrimEnd(s);
    var trail := s[|r|..];
    assert s == r + trail;
    RemoveAllAppend(r, trail, seps);
    assert forall i :: 0 <= i < |trail| ==> trail[i] == s[|r| + i];
    RemoveAllInside(trail, seps);
  }

  /** Python's `str.lower` on ASCII letters; other characters are left as they are. */
  function LowerChar(c: char): char {
    if 'A' <= c <= 'Z' then ((c as int) + 32) as char else c
  }

  function Lower(s: string): (r: string)
    ensures |r| == |s|
    ensures forall i :: 0 <= i < |s| ==> r[i] == LowerChar(s[i])
  {
    seq(|s|, i requires 0 <= i < |s| => LowerChar(s[i]))
  }

  /** Every character of `s` from position `lo` up to `hi` is whitespace. */
  predicate SpaceBetween(s: string, lo: int, hi: int) {
    forall i :: 0 <= lo <= i < hi <= |s| ==> IsSpace(s[i])
  }

  /** `s` without its leading whitespace. */
  function TrimStart(s: string): (r: string)
    ensures r == [] || !IsSpace(r[0])
    ensures |r| <= |s| && r == s[|s| - |r|..]
    ensures SpaceBetween(s, 0, |s| - |r|)
    decreases |s|
  {
    if s != [] && IsSpace(s[0]) then TrimStart(s[1..]) else s
  }

  /** `s` without its trailing whitespace. */
  function TrimEnd(s: string): (r: string)
    ensures r == [] || !IsSpace(r[|r| - 1])
    ensures |r| <= |s| && r == s[..|r|]
    ensures SpaceBetween(s, |r|, |s|)
    decreases |s|
  {
    if s != [] && IsSpace(s[|s| - 1]) then TrimEnd(s[..|s| - 1]) else s
  }

  /** Neither end of `s` is whitespace. */
  predicate IsStripped(s: string) {
    s == [] || (!IsSpace(s[0]) && !IsSpace(s[|s| - 1]))
  }

  /** Python's `str.strip()`: the part of `s` between a whitespace prefix and a whitespace
      suffix that neither begins nor ends with whitespace. */
  function Strip(s: string): (r: string)
    ensures IsStripped(r)
    ensures exists a :: 0 <= a <= |s| - |r| && r == s[a..a + |r|] && SpaceBetween(s, 0, a) && SpaceBetween(s, a + |r|, |s|)
  {
    var t := TrimStart(s);
    var r := TrimEnd(t);
    TrimmedParts(s, t, r);
    r
  }

  /** A suffix `t` of `s` after whitespace, cut to a prefix `r` before whitespace, is the
      middle of `s` between the two runs of whitespace. */
  lemma TrimmedParts(s: string, t: string, r: string)
    requires |t| <= |s| && t == s[|s| - |t|..] && SpaceBetween(s, 0, |s| - |t|)
    requires |r| <= |t| && r == t[..|r|] && SpaceBetween(t, |r|, |t|)
    ensures var a := |s| - |t|;
      && 0 <= a <= |s| - |r| && r == s[a..a + |r|] && SpaceBetween(s, 0, a) && SpaceBetween(s, a + |r|, |s|)
  {
    var a := |s| - |t|;
    forall i | a + |r| <= i < |s| ensures IsSpace(s[i]) {
      assert s[i] == t[i - a];
    }
  }

  lemma StripLeadingSpace(s: string)
    ensures Strip([' '] + s) == Strip(s)
  {
    assert ([' '] + s)[1..] == s;
  }

  lemma StripStripped(s: string)
    requires IsStripped(s)
    ensures Strip(s) == s
  {
  }

  predicate IsDigit(c: char) { '0' <= c <= '9' }

  predicate AllDigits(s: string) { forall i :: 0 <= i < |s| ==> IsDigit(s[i]) }

  function DigitChar(d: nat): (c: char)
    requires d < 10
    ensures IsDigit(c) && (c as int) - ('0' as int) == d
  {
    (('0' as int) + d) as char
  }

  /** The value of a string of decimal digits. */
  function DigitsValue(s: string): nat
    requires AllDigits(s)
  {
    if s == [] then 0 else DigitsValue(s[..|s| - 1]) * 10 + ((s[|s| - 1] as int) - ('0' as int))
  }

  /** Python's `str(n)` for a natural number. */
  function NatToString(n: nat): (r: string)
    ensures |r| >= 1 && AllDigits(r)
  {
    if n < 10 then [DigitChar(n)] else NatToString(n / 10) + [DigitChar(n % 10)]
  }

  /** Python's `str(i)`. */
  function IntToString(i: int): (r: string)
    ensures |r| >= 1
    ensures r[0] == '-' <==> i < 0
    ensures AllDigits(r[1..]) && (i >= 0 ==> AllDigits(r))
  {
    if i < 0 then "-" + NatToString(-i) else NatToString(i)
  }

  /** Python's `int(s)` on an optional sign followed by ASCII digits; anything else raises,
      which is `None` here. */
  function ParseInt(s: string): (r: Option<int>)
    ensures r.Some? ==> s != [] && IsDigit(s[|s| - 1]) && AllDigits(s[1..])
    ensures r.Some? ==> (IsDigit(s[0]) || s[0] == '-' || s[0] == '+')
    ensures r.Some? && r.value < 0 ==> s[0] == '-'
    ensures |s| >= 1 && AllDigits(s) ==> r.Some? && r.value >= 0
  {
    if |s| >= 2 && (s[0] == '-' || s[0] == '+') && AllDigits(s[1..]) then
      assert IsDigit(s[1..][|s| - 2]);
      Some(if s[0] == '-' then -(DigitsValue(s[1..]) as int) else DigitsValue(s[1..]) as int)
    else if |s| >= 1 && AllDigits(s) then Some(DigitsValue(s) as int)
    else None
  }

  lemma {:induction false} NatToStringValue(n: nat)
    ensures DigitsValue(NatToString(n)) == n
    decreases n
  {
    if n >= 10 {
      NatToStringValue(n / 10);
      var s := NatToString(n);
      assert s[..|s| - 1] == NatToString(n / 10);
    }
  }

  /** `int(str(i)) == i`. */
  lemma IntToStringParses(i: int)
    ensures ParseInt(IntToString(i)) == Some(i)
  {
    if i < 0 {
      NegativeParses(i);
    } else {
      NonNegativeParses(i);
    }
  }

  lemma NegativeParses(i: int)
    requires i < 0
    ensures ParseInt(IntToString(i)) == Some(i)
  {
    var t := NatToString(-i);
    calc {
      ParseInt(IntToString(i));
      ParseInt("-" + t);
      { ParseNegative(t); }
      Some(-(DigitsValue(t) as int));
      { NatToStringValue(-i); }
      Some(i);
    }
  }

  lemma NonNegativeParses(i: int)
    requires i >= 0
    ensures ParseInt(IntToString(i)) == Some(i)
  {
    var t := NatToString(i);
    assert IntToString(i) == t;
    NatToStringValue(i);
    ParseDigits(t);
  }

  /** Digits alone parse as their value. */
  lemma ParseDigits(t: string)
    requires |t| >= 1 && AllDigits(t)
    ensures ParseInt(t) == Some(DigitsValue(t) as int)
  {
    assert IsDigit(t[0]);
  }

  /** A minus sign before digits parses as the negated value. */
  lemma ParseNegative(t: string)
    requires |t| >= 1 && AllDigits(t)
    ensures ParseInt("-" + t) == Some(-(DigitsValue(t) as int))
  {
    var s := "-" + t;
    assert s[0] == '-' && s[1..] == t;
  }

  /** `str(i)` holds only digits and `-`. */
  lemma IntToStringAvoids(i: int, seps: set<char>)
    requires forall c :: c in seps ==> !IsDigit(c) && c != '-'
    ensures Avoids(IntToString(i), seps)
  {
    var s := IntToString(i);
    if i < 0 {
      forall k | 0 <= k < |s| ensures s[k] !in seps {
        if k > 0 { assert s[k] == NatToString(-i)[k - 1]; }
      }
    }
  }
}
