/**
 * Clause segmentation of a contract's extracted text (`split_into_clauses`).
 *
 * The document title, at its first occurrence, is turned into clause "0." by
 * writing the marker "0. " in front of it. The text is then cut at every
 * numbered-clause delimiter (a newline, one or two digits, a full stop and a
 * space). If that yields no clause longer than the minimum, the text is cut at
 * blank lines instead, and failing that at sentence ends.
 */
module Segmenter {
  import opened Wrappers
  import opened Text

  /** The title that is treated as clause "0.". */
  const Title: string := "WEBSITE DESIGN AGREEMENT"
  /** What is written in front of the title's first occurrence. */
  const TitleMarker: string := "0. "
  /** A clause is kept only if, once stripped, it is longer than this. */
  const MinClauseLength: nat := 20
  /** The paragraph fallback's separator. */
  const ParagraphBreak: string := "\n\n"
  /** The sentence fallback's separator. */
  const SentenceBreak: string := ". "

  // ---------------------------------------------------------------- title marker

  /**
   * `re.sub(Title, "0. " + Title, text, 1)`: only the first occurrence of the
   * title gets the marker; text without the title is left as it is.
   */
  function InjectTitleMarker(text: string): (r: string)
    ensures !Contains(text, Title) ==> r == text
    ensures forall i {:trigger OccursAt(text, Title, i)} ::
      OccursAt(text, Title, i) && (forall k :: 0 <= k < i ==> !OccursAt(text, Title, k))
      ==> r == text[..i] + TitleMarker + text[i..]
  {
    match FindFrom(text, Title, 0)
    case None => text
    case Some(i) =>
      assert forall j :: OccursAt(text, Title, j) && (forall k :: 0 <= k < j ==> !OccursAt(text, Title, k)) ==> j == i;
      text[..i] + TitleMarker + text[i..]
  }

  /**
   * The inserted "0" becomes part of a numbered-clause delimiter exactly when
   * the title was preceded by a newline (delimiter "\n0. ") or by a newline
   * and one digit (delimiter "\n<d>0. "); otherwise the marker only adds text.
   */
  lemma InjectedMarkerDelimiter(text: string, i: nat)
    requires OccursAt(text, Title, i) && forall k :: 0 <= k < i ==> !OccursAt(text, Title, k)
    ensures var t := InjectTitleMarker(text);
      && (i >= 1 ==> (DelimLenAt(t, i - 1) > 0 <==> text[i - 1] == '\n'))
      && (i >= 2 ==> (DelimLenAt(t, i - 2) == 5 <==> text[i - 2] == '\n' && IsDigit(text[i - 1])))
      && DelimLenAt(t, i) == 0 && DelimLenAt(t, i + 1) == 0 && DelimLenAt(t, i + 2) == 0
  {
    var t := InjectTitleMarker(text);
    assert t == text[..i] + TitleMarker + text[i..];
    assert t[i] == '0' && t[i + 1] == '.' && t[i + 2] == ' ';
    assert |t| >= i + 3 + |Title|;
    if i >= 1 {
      assert t[i - 1] == text[i - 1];
    }
    if i >= 2 {
      assert t[i - 2] == text[i - 2];
    }
  }

  // ---------------------------------------------------------------- numbered delimiter

  /** A numbered-clause delimiter: a newline, one or two digits, a full stop and a space. */
  predicate IsDelimiter(d: string) {
    && (|d| == 4 || |d| == 5)
    && d[0] == '\n'
    && (forall k :: 1 <= k < |d| - 2 ==> IsDigit(d[k]))
    && d[|d| - 2] == '.' && d[|d| - 1] == ' '
  }

  /**
   * The length of the match of the pattern `\n\d{1,2}\. ` at index `j` of `s`,
   * 0 when it does not match there. The one-digit and the two-digit forms
   * never both match at one index (the third character is '.' in one and a
   * digit in the other), and a run of three digits matches neither.
   */
  function DelimLenAt(s: string, j: int): (n: nat)
    ensures n == 0 || n == 4 || n == 5
    ensures n > 0 ==> 0 <= j && j + n <= |s| && IsDelimiter(s[j..j + n])
  {
    if 0 <= j && j + 4 <= |s| && s[j] == '\n' && IsDigit(s[j + 1]) then
      if j + 5 <= |s| && IsDigit(s[j + 2]) && s[j + 3] == '.' && s[j + 4] == ' ' then
        assert s[j..j + 5] == [s[j], s[j + 1], s[j + 2], s[j + 3], s[j + 4]];
        5
      else if s[j + 2] == '.' && s[j + 3] == ' ' then
        assert s[j..j + 4] == [s[j], s[j + 1], s[j + 2], s[j + 3]];
        4
      else 0
    else 0
  }

  /** The matcher accepts a delimiter of length n at j exactly when one stands there. */
  lemma DelimLenAtIff(s: string, j: nat, n: nat)
    requires n == 4 || n == 5
    ensures DelimLenAt(s, j) == n <==> j + n <= |s| && IsDelimiter(s[j..j + n])
  {
    if j + n <= |s| && IsDelimiter(s[j..j + n]) {
      assert s[j..j + n][0] == s[j] && s[j..j + n][1] == s[j + 1] && s[j..j + n][2] == s[j + 2];
      assert s[j..j + n][3] == s[j + 3];
      if n == 5 {
        assert s[j..j + n][4] == s[j + 4];
      }
    }
  }

  /** At most one of the two delimiter forms stands at any index. */
  lemma DelimFormsExclusive(s: string, j: nat)
    ensures !(j + 5 <= |s| && IsDelimiter(s[j..j + 4]) && IsDelimiter(s[j..j + 5]))
  {
    if j + 5 <= |s| {
      DelimLenAtIff(s, j, 4);
      DelimLenAtIff(s, j, 5);
    }
  }

  /** No delimiter matches anywhere in `s`. */
  predicate HasNoDelimiter(s: string) {
    forall k :: 0 <= k < |s| ==> DelimLenAt(s, k) == 0
  }

  /** A delimiter that matches inside a prefix of `s` matches in `s` too. */
  lemma DelimInPrefix(s: string, n: nat, k: int)
    requires n <= |s| && DelimLenAt(s[..n], k) > 0
    ensures DelimLenAt(s, k) > 0 && k < n
  {
    var p := s[..n];
    assert p[k] == s[k] && p[k + 1] == s[k + 1] && p[k + 2] == s[k + 2] && p[k + 3] == s[k + 3];
  }

  /** `re.search` from `from`: the first index at or after `from` where the delimiter matches. */
  function FirstDelim(s: string, from: nat): (r: Option<nat>)
    decreases |s| - from
    ensures r.Some? ==> from <= r.value && DelimLenAt(s, r.value) > 0
    ensures r.Some? ==> forall k :: from <= k < r.value ==> DelimLenAt(s, k) == 0
    ensures r.None? ==> forall k :: from <= k ==> DelimLenAt(s, k) == 0
  {
    if from + 4 > |s| then None
    else if DelimLenAt(s, from) > 0 then Some(from)
    else FirstDelim(s, from + 1)
  }

  /**
   * `re.split(r"(\n\d{1,2}\. )", s)`: the pieces between delimiters at the even
   * positions, the delimiters themselves (kept by the capturing group) at the
   * odd positions. Scanning resumes after each match, so matches never overlap.
   * There is always one more piece than delimiters, the parts concatenate back
   * to `s`, and no piece contains a delimiter.
   */
  function NumberedSplit(s: string): (raw: seq<string>)
    decreases |s|
    ensures |raw| % 2 == 1
  {
    match FirstDelim(s, 0)
    case None => [s]
    case Some(j) =>
      var n := DelimLenAt(s, j);
      [s[..j], s[j..j + n]] + NumberedSplit(s[j + n..])
  }

  /** The piece before the first delimiter holds no delimiter. */
  lemma FirstPieceClean(s: string, j: nat)
    requires FirstDelim(s, 0) == Some(j)
    ensures HasNoDelimiter(s[..j])
  {
    forall k | 0 <= k < j ensures DelimLenAt(s[..j], k) == 0 {
      if DelimLenAt(s[..j], k) > 0 {
        DelimInPrefix(s, j, k);
      }
    }
  }

  /** The parts of the split concatenate back to `s`. */
  lemma {:induction false} NumberedSplitConcat(s: string)
    decreases |s|
    ensures Concat(NumberedSplit(s)) == s
  {
    match FirstDelim(s, 0)
    case None =>
    case Some(j) =>
      var n := DelimLenAt(s, j);
      NumberedSplitConcat(s[j + n..]);
      ConcatPair(s[..j], s[j..j + n], NumberedSplit(s[j + n..]));
      assert s == s[..j] + (s[j..j + n] + s[j + n..]);
  }

  /** The concatenation of two parts in front of others. */
  lemma ConcatPair(a: string, b: string, rest: seq<string>)
    ensures Concat([a, b] + rest) == a + (b + Concat(rest))
  {
    var raw := [a, b] + rest;
    assert raw[1..] == [b] + rest && raw[1..][1..] == rest;
  }

  /** The m-th delimiter of a split, if it has one, is a delimiter. */
  predicate DelimiterAt(raw: seq<string>, m: nat) {
    2 * m + 1 < |raw| ==> IsDelimiter(raw[2 * m + 1])
  }

  /** The m-th piece of a split, if it has one, holds no delimiter. */
  predicate CleanPieceAt(raw: seq<string>, m: nat) {
    2 * m < |raw| ==> HasNoDelimiter(raw[2 * m])
  }

  /** The entries at odd positions of the split are delimiters. */
  lemma {:induction false} NumberedSplitDelimiters(s: string)
    decreases |s|
    ensures forall m: nat :: DelimiterAt(NumberedSplit(s), m)
  {
    match FirstDelim(s, 0)
    case None =>
    case Some(j) =>
      var n := DelimLenAt(s, j);
      NumberedSplitDelimiters(s[j + n..]);
      DelimitersCons(s[..j], s[j..j + n], NumberedSplit(s[j + n..]));
  }

  /** A piece and a delimiter in front of a split keep its odd positions delimiters. */
  lemma DelimitersCons(piece: string, d: string, rest: seq<string>)
    requires IsDelimiter(d) && forall m: nat :: DelimiterAt(rest, m)
    ensures forall m: nat :: DelimiterAt([piece, d] + rest, m)
  {
    var raw := [piece, d] + rest;
    forall m: nat ensures DelimiterAt(raw, m) {
      if m > 0 {
        assert DelimiterAt(rest, m - 1);
        assert 2 * m + 1 < |raw| ==> raw[2 * m + 1] == rest[2 * (m - 1) + 1];
      }
    }
  }

  /** The pieces at even positions of the split hold no delimiter. */
  lemma {:induction false} NumberedSplitPieces(s: string)
    decreases |s|
    ensures forall m: nat :: CleanPieceAt(NumberedSplit(s), m)
  {
    match FirstDelim(s, 0)
    case None =>
      assert NumberedSplit(s) == [s];
    case Some(j) =>
      var n := DelimLenAt(s, j);
      NumberedSplitPieces(s[j + n..]);
      FirstPieceClean(s, j);
      PiecesCons(s[..j], s[j..j + n], NumberedSplit(s[j + n..]));
  }

  /** A delimiter-free piece and a delimiter in front of a split keep its even positions delimiter-free. */
  lemma PiecesCons(piece: string, d: string, rest: seq<string>)
    requires HasNoDelimiter(piece) && forall m: nat :: CleanPieceAt(rest, m)
    ensures forall m: nat :: CleanPieceAt([piece, d] + rest, m)
  {
    var raw := [piece, d] + rest;
    forall m: nat ensures CleanPieceAt(raw, m) {
      if m > 0 {
        assert CleanPieceAt(rest, m - 1);
        assert 2 * m < |raw| ==> raw[2 * m] == rest[2 * (m - 1)];
      }
    }
  }

  // ---------------------------------------------------------------- candidate clauses

  /** The delimiter+piece pairs of a split, from index `i` on: `raw[i] + raw[i + 1]`, `raw[i + 2] + raw[i + 3]`, ... */
  function PairsFrom(raw: seq<string>, i: nat): seq<string>
    decreases |raw| - i
  {
    if i + 1 < |raw| then [raw[i] + raw[i + 1]] + PairsFrom(raw, i + 2) else []
  }

  /** The m-th pair from index i is `raw[i + 2m] + raw[i + 2m + 1]`. */
  lemma {:induction false} PairsFromAt(raw: seq<string>, i: nat, m: nat)
    requires i + 2 * m + 1 < |raw|
    ensures |PairsFrom(raw, i)| > m && PairsFrom(raw, i)[m] == raw[i + 2 * m] + raw[i + 2 * m + 1]
    decreases m
  {
    var p := PairsFrom(raw, i);
    assert p == [raw[i] + raw[i + 1]] + PairsFrom(raw, i + 2);
    if m > 0 {
      PairsFromAt(raw, i + 2, m - 1);
      assert p[m] == PairsFrom(raw, i + 2)[m - 1];
    }
  }

  /** Pairs cover the rest of an even-length tail of the split. */
  lemma {:induction false} PairsFromLength(raw: seq<string>, i: nat)
    requires i <= |raw| && (|raw| - i) % 2 == 0
    ensures |PairsFrom(raw, i)| == (|raw| - i) / 2
    ensures Concat(PairsFrom(raw, i)) == Concat(raw[i..])
    decreases |raw| - i
  {
    if i + 1 < |raw| {
      PairsFromLength(raw, i + 2);
      var a, b := raw[i], raw[i + 1];
      assert raw[i..][1..] == raw[i + 1..] && raw[i + 1..][1..] == raw[i + 2..];
      calc {
        Concat(PairsFrom(raw, i));
        (a + b) + Concat(PairsFrom(raw, i + 2));
        a + (b + Concat(raw[i + 2..]));
        Concat(raw[i..]);
      }
    } else {
      assert raw[i..] == [];
    }
  }

  /** The numbered tier's candidates: the preamble, then each delimiter joined to the piece after it. */
  function Candidates(t: string): seq<string> {
    var raw := NumberedSplit(t);
    [raw[0]] + PairsFrom(raw, 1)
  }

  /**
   * The candidates cut `t` into consecutive pieces in document order: they
   * concatenate back to `t`, the preamble holds no delimiter, and each later
   * candidate is a delimiter followed by text holding no further delimiter.
   */
  lemma CandidatesPartition(t: string)
    ensures var c := Candidates(t);
      && |c| >= 1
      && Concat(c) == t
      && HasNoDelimiter(c[0])
      && forall k :: 1 <= k < |c| ==> IsDelimitedClause(c[k])
  {
    var raw := NumberedSplit(t);
    NumberedSplitConcat(t);
    NumberedSplitDelimiters(t);
    NumberedSplitPieces(t);
    assert CleanPieceAt(raw, 0);
    PairsFromLength(raw, 1);
    CandidatesConcat(t, raw);
    CandidatesDelimited(t, raw);
  }

  lemma CandidatesConcat(t: string, raw: seq<string>)
    requires raw == NumberedSplit(t) && Concat(raw) == t
    requires Concat(PairsFrom(raw, 1)) == Concat(raw[1..])
    ensures Concat(Candidates(t)) == t
  {
    var c := Candidates(t);
    assert c[0] == raw[0] && c[1..] == PairsFrom(raw, 1);
  }

  lemma CandidatesDelimited(t: string, raw: seq<string>)
    requires raw == NumberedSplit(t)
    requires forall m: nat :: DelimiterAt(raw, m)
    requires forall m: nat :: CleanPieceAt(raw, m)
    requires |PairsFrom(raw, 1)| == (|raw| - 1) / 2
    ensures forall k :: 1 <= k < |Candidates(t)| ==> IsDelimitedClause(Candidates(t)[k])
  {
    var c := Candidates(t);
    assert |raw| == 2 * (|c| - 1) + 1;
    forall k | 1 <= k < |c| ensures IsDelimitedClause(c[k]) {
      assert DelimiterAt(raw, k - 1) && CleanPieceAt(raw, k);
      PairsFromAt(raw, 1, k - 1);
      DelimitedPair(raw[2 * k - 1], raw[2 * k]);
    }
  }

  /** Text that starts with a delimiter and holds no other delimiter after it. */
  predicate IsDelimitedClause(c: string) {
    var n := DelimLenAt(c, 0);
    n > 0 && HasNoDelimiter(c[n..])
  }

  /** A delimiter followed by delimiter-free text is matched at its start, and nothing after it matches. */
  lemma DelimitedPair(d: string, piece: string)
    requires IsDelimiter(d) && HasNoDelimiter(piece)
    ensures DelimLenAt(d + piece, 0) == |d| && IsDelimitedClause(d + piece)
  {
    assert (d + piece)[0..|d|] == d;
    DelimLenAtIff(d + piece, 0, |d|);
    assert (d + piece)[|d|..] == piece;
  }

  // ---------------------------------------------------------------- tiers

  /** What a candidate contributes to its tier: its stripped form if that is long enough, else nothing. */
  function Kept(c: string): seq<string> {
    if |Strip(c)| > MinClauseLength then [Strip(c)] else []
  }

  /**
   * `[c.strip() for c in xs if len(c.strip()) > 20]`: the stripped candidates
   * that are long enough, in their original order.
   */
  function KeepLong(xs: seq<string>): seq<string> {
    if xs == [] then [] else Kept(xs[0]) + KeepLong(xs[1..])
  }

  /**
   * What the filter keeps: only stripped clauses longer than the minimum, each
   * the `strip()` of some candidate, and every candidate long enough once stripped.
   */
  lemma {:induction false} KeepLongSound(xs: seq<string>)
    ensures var r := KeepLong(xs);
      && |r| <= |xs|
      && (forall c :: c in r ==> |c| > MinClauseLength && IsTrimmed(c))
      && (forall c :: c in r ==> exists x :: x in xs && c == Strip(x))
      && (forall x :: x in xs && |Strip(x)| > MinClauseLength ==> Strip(x) in r)
  {
    if xs != [] {
      var c := Strip(xs[0]);
      var rest := KeepLong(xs[1..]);
      var r := KeepLong(xs);
      KeepLongSound(xs[1..]);
      StripTrimmed(xs[0]);
      assert r == Kept(xs[0]) + rest;
      forall y | y in r ensures exists x :: x in xs && y == Strip(x) {
        if y in rest {
          var x :| x in xs[1..] && y == Strip(x);
          assert x in xs;
        } else {
          assert xs[0] in xs && y == Strip(xs[0]);
        }
      }
      forall x | x in xs && |Strip(x)| > MinClauseLength ensures Strip(x) in r {
        if x != xs[0] {
          assert x in xs[1..];
        }
      }
    }
  }

  /** One step of the filter: a candidate in front contributes its stripped form if that is long enough. */
  lemma KeepLongCons(x: string, rest: seq<string>)
    ensures KeepLong([x] + rest) == Kept(x) + KeepLong(rest)
  {
    assert ([x] + rest)[0] == x && ([x] + rest)[1..] == rest;
  }

  /** Filtering keeps order: the clauses of a concatenation are those of its halves, in turn. */
  lemma {:induction false} KeepLongAppend(a: seq<string>, b: seq<string>)
    ensures KeepLong(a + b) == KeepLong(a) + KeepLong(b)
  {
    if a != [] {
      assert (a + b)[0] == a[0] && (a + b)[1..] == a[1..] + b;
      assert KeepLong(a + b) == Kept(a[0]) + KeepLong(a[1..] + b);
      KeepLongAppend(a[1..], b);
    } else {
      assert a + b == b;
    }
  }

  /** Tier 1: the numbered split. */
  function NumberedTier(t: string): seq<string> {
    KeepLong(Candidates(t))
  }

  /** Tier 2: `t.split("\n\n")`. */
  function ParagraphTier(t: string): seq<string> {
    KeepLong(Split(t, ParagraphBreak))
  }

  /** Tier 3: `t.split(". ")`. */
  function SentenceTier(t: string): seq<string> {
    KeepLong(Split(t, SentenceBreak))
  }

  /**
   * The clauses of a document: the first tier that yields any, all three
   * applied to the text after the title marker has been added.
   */
  function Segment(text: string): seq<string> {
    var t := InjectTitleMarker(text);
    if NumberedTier(t) != [] then NumberedTier(t)
    else if ParagraphTier(t) != [] then ParagraphTier(t)
    else SentenceTier(t)
  }

  /** Whichever tier is used, every clause is stripped and longer than the minimum. */
  lemma SegmentClausesWellFormed(text: string)
    ensures forall c :: c in Segment(text) ==> |c| > MinClauseLength && IsTrimmed(c)
  {
    var t := InjectTitleMarker(text);
    KeepLongSound(Candidates(t));
    KeepLongSound(Split(t, ParagraphBreak));
    KeepLongSound(Split(t, SentenceBreak));
  }

  /** The cascade: each fallback is used only when every tier before it yields nothing. */
  lemma SegmentCascade(text: string)
    ensures var t := InjectTitleMarker(text);
      && (NumberedTier(t) != [] ==> Segment(text) == NumberedTier(t))
      && (NumberedTier(t) == [] && ParagraphTier(t) != [] ==> Segment(text) == ParagraphTier(t))
      && (NumberedTier(t) == [] && ParagraphTier(t) == [] ==> Segment(text) == SentenceTier(t))
      && (Segment(text) == [] <==> NumberedTier(t) == [] && ParagraphTier(t) == [] && SentenceTier(t) == [])
  {
  }

  /**
   * Without any numbered delimiter the whole text is the preamble, so a text
   * longer than the minimum once stripped is one clause: the blank-line and
   * sentence fallbacks are reached only when the stripped text is short.
   */
  lemma SegmentUndelimitedWhole(text: string)
    ensures var t := InjectTitleMarker(text);
      FirstDelim(t, 0).None? && |Strip(t)| > MinClauseLength ==>
        NumberedTier(t) == [Strip(t)] && Segment(text) == [Strip(t)]
  {
    var t := InjectTitleMarker(text);
    if FirstDelim(t, 0).None? && |Strip(t)| > MinClauseLength {
      assert NumberedSplit(t) == [t];
      assert Candidates(t) == [t];
      KeepLongCons(t, []);
    }
  }

  /**
   * Text with no numbered delimiter that is 20 characters or fewer once stripped
   * yields no clause at all: every paragraph and every sentence is a piece of it,
   * so none is longer once stripped.
   */
  lemma SegmentUndelimitedShort(text: string)
    ensures var t := InjectTitleMarker(text);
      FirstDelim(t, 0).None? && |Strip(t)| <= MinClauseLength ==> Segment(text) == []
  {
    var t := InjectTitleMarker(text);
    if FirstDelim(t, 0).None? && |Strip(t)| <= MinClauseLength {
      assert NumberedSplit(t) == [t];
      assert Candidates(t) == [t];
      KeepLongCons(t, []);
      SplitPartsContained(t, ParagraphBreak);
      KeepLongShort(Split(t, ParagraphBreak), t);
      SplitPartsContained(t, SentenceBreak);
      KeepLongShort(Split(t, SentenceBreak), t);
    }
  }

  /**
   * The blank-line and sentence fallbacks produce clauses only for text that
   * has a numbered delimiter and whose every numbered candidate is 20
   * characters or fewer once stripped.
   */
  lemma SegmentFallbackNeedsDelimiter(text: string)
    ensures var t := InjectTitleMarker(text);
      NumberedTier(t) == [] && Segment(text) != [] ==> FirstDelim(t, 0).Some?
  {
    SegmentUndelimitedWhole(text);
    SegmentUndelimitedShort(text);
  }

  /** Nothing survives the filter when every candidate is a piece of a text that is short once stripped. */
  lemma {:induction false} KeepLongShort(xs: seq<string>, t: string)
    requires forall x :: x in xs ==> Contains(t, x)
    requires |Strip(t)| <= MinClauseLength
    ensures KeepLong(xs) == []
  {
    if xs != [] {
      assert xs[0] in xs;
      StripOfSubstringNoLonger(t, xs[0]);
      assert forall x :: x in xs[1..] ==> x in xs;
      KeepLongShort(xs[1..], t);
    }
  }

  /** Every part of a split is a piece of the text split. */
  lemma SplitPartsContained(t: string, sep: string)
    requires |sep| > 0
    ensures forall x :: x in Split(t, sep) ==> Contains(t, x)
  {
    var parts := Split(t, sep);
    forall x | x in parts ensures Contains(t, x) {
      var k :| 0 <= k < |parts| && parts[k] == x;
      JoinWithContainsParts(parts, sep, k);
    }
  }

  /** The numbered tier in document order: the stripped preamble first, when it is long enough. */
  lemma NumberedTierPreambleFirst(t: string)
    ensures var c := Candidates(t);
      NumberedTier(t) == Kept(c[0]) + KeepLong(c[1..])
  {
    var c := Candidates(t);
    KeepLongCons(c[0], c[1..]);
    assert c == [c[0]] + c[1..];
  }

  /**
   * Each clause after the preamble is the stripped form of a delimiter
   * followed by the text up to the next delimiter.
   */
  lemma NumberedTierDelimited(t: string)
    ensures var c := Candidates(t);
      forall x :: x in KeepLong(c[1..]) ==> exists k :: 1 <= k < |c| && x == Strip(c[k]) && IsDelimitedClause(c[k])
  {
    CandidatesPartition(t);
    KeepLongTailDelimited(Candidates(t));
  }

  /** Every clause kept from the candidates after the first is the stripped form of a delimited one. */
  lemma KeepLongTailDelimited(c: seq<string>)
    requires |c| >= 1 && forall k :: 1 <= k < |c| ==> IsDelimitedClause(c[k])
    ensures forall x :: x in KeepLong(c[1..]) ==> exists k :: 1 <= k < |c| && x == Strip(c[k]) && IsDelimitedClause(c[k])
  {
    forall x | x in KeepLong(c[1..])
      ensures exists k :: 1 <= k < |c| && x == Strip(c[k]) && IsDelimitedClause(c[k])
    {
      KeepLongSound(c[1..]);
      var y :| y in c[1..] && x == Strip(y);
      var j :| 0 <= j < |c[1..]| && c[1..][j] == y;
      assert c[j + 1] == y;
    }
  }

  /** If every candidate lies in `t`, so does every clause kept from them. */
  lemma KeepLongContained(xs: seq<string>, t: string)
    requires forall x :: x in xs ==> Contains(t, x)
    ensures forall c :: c in KeepLong(xs) ==> Contains(t, c)
  {
    KeepLongSound(xs);
    forall c | c in KeepLong(xs) ensures Contains(t, c) {
      var x :| x in xs && c == Strip(x);
      StripContained(x);
      ContainsTransitive(c, x, t);
    }
  }

  /**
   * Every clause is a contiguous piece of the text the tiers split, i.e. of
   * the document text with the title marker added (the document text itself
   * when the title does not occur).
   */
  lemma SegmentClausesAreSubstrings(text: string)
    ensures forall c :: c in Segment(text) ==> Contains(InjectTitleMarker(text), c)
  {
    var t := InjectTitleMarker(text);
    var cands := Candidates(t);
    CandidatesPartition(t);
    forall x | x in cands ensures Contains(t, x) {
      var k :| 0 <= k < |cands| && cands[k] == x;
      ConcatContainsParts(cands, k);
    }
    KeepLongContained(cands, t);
    SplitPartsContained(t, ParagraphBreak);
    KeepLongContained(Split(t, ParagraphBreak), t);
    SplitPartsContained(t, SentenceBreak);
    KeepLongContained(Split(t, SentenceBreak), t);
  }

  // ---------------------------------------------------------------- the segmenter

  lemma AppendAssoc<T>(a: seq<T>, b: seq<T>, c: seq<T>)
    ensures (a + b) + c == a + (b + c)
  {
  }

  /**
   * One step of the walk over the split: when the clauses so far and those
   * of the pairs from `i` make up the tier, so do the clauses with the pair
   * at `i` handled and those of the pairs after it.
   */
  lemma WalkStep(raw: seq<string>, i: nat, clauses: seq<string>, target: seq<string>)
    requires clauses + KeepLong(PairsFrom(raw, i)) == target
    ensures i + 1 < |raw| && |Strip(raw[i] + raw[i + 1])| > MinClauseLength ==>
      (clauses + [Strip(raw[i] + raw[i + 1])]) + KeepLong(PairsFrom(raw, i + 2)) == target
    ensures i + 1 < |raw| && |Strip(raw[i] + raw[i + 1])| <= MinClauseLength ==>
      clauses + KeepLong(PairsFrom(raw, i + 2)) == target
    ensures i + 1 >= |raw| ==> clauses == target && clauses + KeepLong(PairsFrom(raw, i + 2)) == target
  {
    if i + 1 < |raw| {
      var c := Strip(raw[i] + raw[i + 1]);
      KeepLongCons(raw[i] + raw[i + 1], PairsFrom(raw, i + 2));
      if |c| > MinClauseLength {
        AppendAssoc(clauses, [c], KeepLong(PairsFrom(raw, i + 2)));
      } else {
        assert clauses + [] == clauses;
      }
    } else {
      assert clauses + [] == clauses;
    }
  }

  /**
   * The numbered tier as `split_into_clauses` builds it from the split: the
   * stripped preamble if long enough, then the split is walked two entries at
   * a time, each delimiter joined to the piece after it, stripped and kept if
   * long enough.
   */
  method NumberedClauses(raw: seq<string>) returns (clauses: seq<string>)
    requires |raw| >= 1
    ensures clauses == KeepLong([raw[0]] + PairsFrom(raw, 1))
  {
    ghost var target := KeepLong([raw[0]] + PairsFrom(raw, 1));
    clauses := [];
    var preamble := Strip(raw[0]);
    if |preamble| > MinClauseLength {
      clauses := clauses + [preamble];
    }
    assert clauses + KeepLong(PairsFrom(raw, 1)) == target by {
      KeepLongCons(raw[0], PairsFrom(raw, 1));
    }
    var i := 1;
    while i < |raw|
      invariant clauses + KeepLong(PairsFrom(raw, i)) == target
      decreases |raw| - i
    {
      WalkStep(raw, i, clauses, target);
      if i + 1 < |raw| {
        var fullClause := Strip(raw[i] + raw[i + 1]);
        if |fullClause| > MinClauseLength {
          clauses := clauses + [fullClause];
        }
      }
      i := i + 2;
    }
    WalkStep(raw, i, clauses, target);
  }

  /**
   * `split_into_clauses`: the numbered tier first; the paragraph and then the
   * sentence fallback only when every tier before yields nothing.
   */
  method SplitIntoClauses(text: string) returns (clauses: seq<string>)
    ensures clauses == Segment(text)
  {
    var t := InjectTitleMarker(text);
    var raw := NumberedSplit(t);
    clauses := NumberedClauses(raw);
    assert clauses == NumberedTier(t);
    if clauses == [] {
      clauses := ParagraphTier(t);
      if clauses == [] {
        clauses := SentenceTier(t);
      }
    }
  }
}
