/**
 * The script parser of src/lib/sectionParser.ts: pasted text is split on blank
 * lines, each chunk's first line is classified as an act, scene or heading line
 * by priority-ordered patterns, and the chunk becomes one or two sections.
 */
module SectionParser {
  import opened Wrappers
  import opened Strings

  datatype SectionType = Act | Scene | Paragraph | Heading

  datatype ParsedSection = ParsedSection(title: Option<string>, body: string, sectionType: SectionType)

  /** The result of classifyLine: a section type (never Paragraph) and a title, both or neither. */
  datatype Classification = Classification(kind: Option<SectionType>, title: Option<string>)

  // ---------------------------------------------------------------------------
  // The blank-line separator `/\n\s*\n/` and `String.prototype.split` with it
  // ---------------------------------------------------------------------------

  /** Every character of `s[a..b]` is whitespace. */
  predicate WsBetween(s: string, a: int, b: int)
    requires 0 <= a && b <= |s|
  {
    forall k :: a <= k < b ==> IsWhitespace(s[k])
  }

  /** Positions `i < j` hold a blank line: a newline, only whitespace, a newline. */
  predicate HasBlankLine(s: string, i: int, j: int) {
    0 <= i < j < |s| && s[i] == '\n' && s[j] == '\n' && WsBetween(s, i + 1, j)
  }

  /** No blank line occurs anywhere in `s`. */
  predicate NoBlankLine(s: string) {
    forall i, j :: 0 <= i < j < |s| ==> !HasBlankLine(s, i, j)
  }

  /** The end of the run of whitespace that starts at `i`. */
  function WsRunEnd(s: string, i: nat): (w: nat)
    requires i <= |s|
    ensures i <= w <= |s|
    ensures WsBetween(s, i, w)
    ensures w == |s| || !IsWhitespace(s[w])
    decreases |s| - i
  {
    if i == |s| || !IsWhitespace(s[i]) then i else WsRunEnd(s, i + 1)
  }

  /** The last newline in `s[lo..hi]`, or -1. */
  function LastNewline(s: string, lo: nat, hi: nat): (j: int)
    requires lo <= hi <= |s|
    ensures j == -1 || (lo <= j < hi && s[j] == '\n')
    ensures forall k :: lo <= k < hi && j < k ==> s[k] != '\n'
    decreases hi - lo
  {
    if hi == lo then -1
    else if s[hi - 1] == '\n' then hi - 1
    else LastNewline(s, lo, hi - 1)
  }

  /**
   * Matching `\n\s*\n` at position `q`: the greedy `\s*` runs to the end of the
   * whitespace, then backs off to the last newline in it. The result is the end
   * of the match: a blank line starting at `q`, the longest one there.
   */
  function MatchBlankLine(s: string, q: nat): (e: Option<nat>)
    requires q < |s|
    ensures e.Some? ==> q + 2 <= e.value <= |s| && HasBlankLine(s, q, e.value - 1)
    ensures e.Some? ==> forall j :: e.value - 1 < j ==> !HasBlankLine(s, q, j)
    ensures e.None? ==> forall j :: !HasBlankLine(s, q, j)
  {
    if s[q] != '\n' then None
    else
      var w := WsRunEnd(s, q + 1);
      var j := LastNewline(s, q + 1, w);
      if j == -1 then None else Some(j + 1)
  }

  /**
   * The split loop from position `p` (start of the current piece) and `q` (next
   * position to try): at each `q` the separator is tried; on a match the piece
   * `s[p..q]` is emitted and scanning resumes after the match.
   */
  function SplitFrom(s: string, p: nat, q: nat): (r: seq<string>)
    requires p <= q <= |s|
    requires forall k :: p <= k < q ==> MatchBlankLine(s, k).None?
    ensures |r| >= 1
    ensures forall k :: 0 <= k < |r| ==> NoBlankLine(r[k])
    ensures forall k :: 0 <= k < |r| ==> IsSliceOf(r[k], s)
    decreases |s| - q
  {
    if q == |s| then
      NoBlankLineBetween(s, p, |s|);
      assert s[p..] == s[p..|s|];
      [s[p..]]
    else
      match MatchBlankLine(s, q)
      case Some(e) =>
        NoBlankLineBetween(s, p, q);
        [s[p..q]] + SplitFrom(s, e, e)
      case None => SplitFrom(s, p, q + 1)
  }

  /** `c` occurs in `s` as a contiguous piece. */
  predicate IsSliceOf(c: string, s: string) {
    exists a, b :: 0 <= a <= b <= |s| && s[a..b] == c
  }

  /** A blank line inside the piece `s[p..q]` is a blank line of `s`, shifted by `p`. */
  lemma BlankLineShift(s: string, p: nat, q: nat, i: int, j: int)
    requires p <= q <= |s|
    ensures HasBlankLine(s[p..q], i, j) ==> p <= p + i < q && HasBlankLine(s, p + i, p + j)
  {
    var t := s[p..q];
    if HasBlankLine(t, i, j) {
      forall k | p + i + 1 <= k < p + j ensures IsWhitespace(s[k]) {
        assert s[k] == t[k - p];
      }
    }
  }

  /** A piece none of whose positions starts a separator match contains no blank line. */
  lemma NoBlankLineBetween(s: string, p: nat, q: nat)
    requires p <= q <= |s|
    requires forall k :: p <= k < q ==> MatchBlankLine(s, k).None?
    ensures NoBlankLine(s[p..q]) && IsSliceOf(s[p..q], s)
  {
    forall i, j | 0 <= i < j < q - p ensures !HasBlankLine(s[p..q], i, j) {
      assert MatchBlankLine(s, p + i).None?;
      BlankLineShift(s, p, q, i, j);
    }
  }

  /** `text.split(/\n\s*\n/)`. */
  function SplitBlankLines(s: string): (r: seq<string>)
    ensures |r| >= 1
    ensures forall k :: 0 <= k < |r| ==> NoBlankLine(r[k]) && IsSliceOf(r[k], s)
    ensures |r| == |BlankLineSeparators(s)| + 1
    ensures Interleave(r, BlankLineSeparators(s)) == s
  {
    SplitFromRebuilds(s, 0, 0);
    assert s[0..] == s;
    SplitFrom(s, 0, 0)
  }

  /** The separator matches `SplitFrom(s, p, q)` consumes, in order. */
  function SeparatorsFrom(s: string, p: nat, q: nat): (r: seq<string>)
    requires p <= q <= |s|
    decreases |s| - q
  {
    if q == |s| then []
    else
      match MatchBlankLine(s, q)
      case Some(e) => [s[q..e]] + SeparatorsFrom(s, e, e)
      case None => SeparatorsFrom(s, p, q + 1)
  }

  /** The blank lines `text.split(/\n\s*\n/)` removes: each a newline, whitespace, a newline. */
  function BlankLineSeparators(s: string): (r: seq<string>)
    ensures forall k :: 0 <= k < |r| ==> IsSeparator(r[k])
  {
    SplitFromRebuilds(s, 0, 0);
    SeparatorsFrom(s, 0, 0)
  }

  /** What the separator pattern matches: a newline, only whitespace, a newline. */
  predicate IsSeparator(t: string) {
    |t| >= 2 && t[0] == '\n' && t[|t| - 1] == '\n' && AllWhitespace(t)
  }

  /** `outer[0] + inner[0] + outer[1] + ... + inner[n-1] + outer[n]`. */
  function Interleave(outer: seq<string>, inner: seq<string>): string
    requires |outer| == |inner| + 1
    decreases |inner|
  {
    if |inner| == 0 then outer[0]
    else outer[0] + inner[0] + Interleave(outer[1..], inner[1..])
  }

  /** The pieces from `p` on, with the separators put back between them, give `s[p..]`. */
  lemma {:induction false} SplitFromRebuilds(s: string, p: nat, q: nat)
    requires p <= q <= |s|
    requires forall k :: p <= k < q ==> MatchBlankLine(s, k).None?
    ensures var chunks, seps := SplitFrom(s, p, q), SeparatorsFrom(s, p, q);
            && |chunks| == |seps| + 1
            && (forall k :: 0 <= k < |seps| ==> IsSeparator(seps[k]))
            && Interleave(chunks, seps) == s[p..]
    decreases |s| - q
  {
    if q == |s| {
      assert SplitFrom(s, p, q) == [s[p..]];
    } else {
      match MatchBlankLine(s, q)
      case Some(e) =>
        SplitFromRebuilds(s, e, e);
        SeparatorMatched(s, q, e);
        InterleaveCons(s[p..q], s[q..e], SplitFrom(s, e, e), SeparatorsFrom(s, e, e));
        SliceThree(s, p, q, e);
      case None =>
        SplitFromRebuilds(s, p, q + 1);
    }
  }

  /** A match of the separator pattern is a separator. */
  lemma SeparatorMatched(s: string, q: nat, e: nat)
    requires q < |s| && MatchBlankLine(s, q) == Some(e)
    ensures IsSeparator(s[q..e])
  {
    var sep := s[q..e];
    assert HasBlankLine(s, q, e - 1);
    forall k | 0 <= k < |sep| ensures IsWhitespace(sep[k]) {
      assert sep[k] == s[q + k];
    }
  }

  lemma InterleaveCons(a: string, b: string, outer: seq<string>, inner: seq<string>)
    requires |outer| == |inner| + 1
    ensures Interleave([a] + outer, [b] + inner) == a + b + Interleave(outer, inner)
  {
    assert ([a] + outer)[1..] == outer;
    assert ([b] + inner)[1..] == inner;
  }

  lemma SliceThree(s: string, p: nat, q: nat, e: nat)
    requires p <= q <= e <= |s|
    ensures s[p..q] + s[q..e] + s[e..] == s[p..]
  {
  }

  /** Text without a blank line is one piece: the text itself. */
  lemma {:induction false} SplitWithoutBlankLine(s: string)
    requires NoBlankLine(s)
    ensures SplitBlankLines(s) == [s]
  {
    SplitFromNoMatch(s, 0);
    assert s[0..] == s;
  }

  lemma {:induction false} SplitFromNoMatch(s: string, q: nat)
    requires NoBlankLine(s) && q <= |s|
    requires forall k :: 0 <= k < q ==> MatchBlankLine(s, k).None?
    ensures SplitFrom(s, 0, q) == [s[0..]]
    decreases |s| - q
  {
    if q < |s| {
      SplitFromNoMatch(s, q + 1);
    }
  }

  /** A slice of a string without a blank line has none either. */
  lemma NoBlankLineSlice(s: string, a: nat, b: nat)
    requires a <= b <= |s| && NoBlankLine(s)
    ensures NoBlankLine(s[a..b])
  {
    var t := s[a..b];
    forall i, j | HasBlankLine(t, i, j) ensures false {
      assert WsBetween(s, a + i + 1, a + j) by {
        forall k | a + i + 1 <= k < a + j ensures IsWhitespace(s[k]) {
          assert s[k] == t[k - a];
        }
      }
      assert HasBlankLine(s, a + i, a + j);
    }
  }

  /** Every character of a slice of an all-whitespace string is whitespace. */
  lemma WhitespaceSlice(c: string, s: string)
    requires IsSliceOf(c, s) && AllWhitespace(s)
    ensures AllWhitespace(c)
  {
    var a, b :| 0 <= a <= b <= |s| && s[a..b] == c;
    forall i | 0 <= i < |c| ensures IsWhitespace(c[i]) {
      assert c[i] == s[a + i];
    }
  }

  // ---------------------------------------------------------------------------
  // The line patterns
  // ---------------------------------------------------------------------------

  /** `\w` without the unicode flag: ASCII letters, digits and underscore. */
  predicate IsWordChar(c: char) {
    'A' <= c <= 'Z' || 'a' <= c <= 'z' || '0' <= c <= '9' || c == '_'
  }

  /**
   * One character against one pattern character under `/i` without the unicode
   * flag: an ASCII letter also matches its other case; no non-ASCII character
   * folds onto an ASCII one.
   */
  predicate CharMatchesCI(c: char, p: char) {
    c == p || ('A' <= p <= 'Z' && c as int == p as int + 32)
  }

  predicate StartsWithCI(s: string, p: string) {
    |p| <= |s| && forall i :: 0 <= i < |p| ==> CharMatchesCI(s[i], p[i])
  }

  /** `\s+\w` at the start of `s`. */
  predicate WsThenWord(s: string)
    decreases |s|
  {
    |s| >= 2 && IsWhitespace(s[0]) && (IsWordChar(s[1]) || WsThenWord(s[1..]))
  }

  /** `\s+\w` matches exactly when a non-empty whitespace run is followed by a word character. */
  lemma {:induction false} WsThenWordMeaning(s: string)
    ensures WsThenWord(s) <==> exists k :: 1 <= k < |s| && IsWordChar(s[k]) && WsBetween(s, 0, k)
    decreases |s|
  {
    if |s| >= 2 && IsWhitespace(s[0]) {
      var t := s[1..];
      WsThenWordMeaning(t);
      if WsThenWord(s) && !IsWordChar(s[1]) {
        var k :| 1 <= k < |t| && IsWordChar(t[k]) && WsBetween(t, 0, k);
        assert IsWordChar(s[k + 1]);
        assert WsBetween(s, 0, k + 1) by {
          forall m | 0 <= m < k + 1 ensures IsWhitespace(s[m]) {
            if m > 0 { assert s[m] == t[m - 1]; }
          }
        }
      }
      if exists k :: 1 <= k < |s| && IsWordChar(s[k]) && WsBetween(s, 0, k) {
        var k :| 1 <= k < |s| && IsWordChar(s[k]) && WsBetween(s, 0, k);
        if k > 1 {
          assert IsWordChar(t[k - 1]);
          assert WsBetween(t, 0, k - 1) by {
            forall m | 0 <= m < k - 1 ensures IsWhitespace(t[m]) {
              assert t[m] == s[m + 1];
            }
          }
        }
      }
    }
  }

  /** `/^ACT\s+(\w+)/i`. */
  predicate ActMatch(t: string) {
    StartsWithCI(t, "ACT") && WsThenWord(t[3..])
  }

  /** `/^(?:SCENE|SC\.?)\s+(\w+)/i`: the alternatives SCENE, SC. and SC. */
  predicate SceneMatch(t: string) {
    (StartsWithCI(t, "SCENE") && WsThenWord(t[5..])) ||
    (StartsWithCI(t, "SC.") && WsThenWord(t[3..])) ||
    (StartsWithCI(t, "SC") && WsThenWord(t[2..]))
  }

  /** `/^(?:INT|EXT|INT\.\/EXT)\./i`. */
  predicate IntExtMatch(t: string) {
    StartsWithCI(t, "INT.") || StartsWithCI(t, "EXT.") || StartsWithCI(t, "INT./EXT.")
  }

  predicate IsUpperAscii(c: char) {
    'A' <= c <= 'Z'
  }

  /** The class `[A-Z\s\d:,'-]`. */
  predicate IsHeadingChar(c: char) {
    IsUpperAscii(c) || IsWhitespace(c) || '0' <= c <= '9' || c == ':' || c == ',' || c == '\'' || c == '-'
  }

  /** `/^[A-Z][A-Z\s\d:,'-]{4,}$/` (case-sensitive). */
  predicate HeadingMatch(t: string) {
    |t| >= 5 && IsUpperAscii(t[0]) && forall i :: 1 <= i < |t| ==> IsHeadingChar(t[i])
  }

  /** classifyLine: act, then scene, then INT./EXT., then an all-caps heading under 80 characters. */
  function ClassifyLine(line: string): (c: Classification)
    ensures c.kind.Some? <==> c.title.Some?
    ensures c.title.Some? ==> c.title.value == Trim(line)
    ensures c.kind != Some(Paragraph)
  {
    var t := Trim(line);
    if ActMatch(t) then Classification(Some(Act), Some(t))
    else if SceneMatch(t) then Classification(Some(Scene), Some(t))
    else if IntExtMatch(t) then Classification(Some(Scene), Some(t))
    else if HeadingMatch(t) && |t| < 80 then Classification(Some(Heading), Some(t))
    else Classification(None, None)
  }

  /** The priority order of the patterns, stated on the trimmed line. */
  lemma ClassifyPriority(line: string)
    ensures var t := Trim(line); var k := ClassifyLine(line).kind;
            && (ActMatch(t) ==> k == Some(Act))
            && (!ActMatch(t) && (SceneMatch(t) || IntExtMatch(t)) ==> k == Some(Scene))
            && (k == Some(Heading) <==>
                  !ActMatch(t) && !SceneMatch(t) && !IntExtMatch(t) && HeadingMatch(t) && |t| < 80)
            && (k.None? <==>
                  !ActMatch(t) && !SceneMatch(t) && !IntExtMatch(t) && !(HeadingMatch(t) && |t| < 80))
  {
  }

  /** A classified line is not blank. */
  lemma ClassifiedLineNonEmpty(line: string)
    ensures ClassifyLine(line).kind.Some? ==> Trim(line) != []
  {
  }

  /** A heading line is 5 to 79 characters, starts with A-Z and has no lower-case ASCII letter. */
  lemma HeadingLineShape(line: string)
    requires ClassifyLine(line).kind == Some(Heading)
    ensures 5 <= |Trim(line)| < 80 && IsUpperAscii(Trim(line)[0])
    ensures forall i :: 0 <= i < |Trim(line)| ==> !('a' <= Trim(line)[i] <= 'z')
  {
    var t := Trim(line);
    assert HeadingMatch(t);
    forall i | 0 <= i < |t| ensures !('a' <= t[i] <= 'z') {
      if i > 0 { assert IsHeadingChar(t[i]); }
    }
  }

  /** Trimming first does not change the classification. */
  lemma ClassifyTrimInvariant(line: string)
    ensures ClassifyLine(Trim(line)) == ClassifyLine(line)
  {
    TrimIdempotent(line);
  }

  /** The `INT./EXT.` alternative adds nothing: every such line already starts with `INT.`. */
  lemma IntExtAlternativeSubsumed(t: string)
    requires StartsWithCI(t, "INT./EXT.")
    ensures StartsWithCI(t, "INT.")
  {
  }

  // ---------------------------------------------------------------------------
  // parseScriptText
  // ---------------------------------------------------------------------------

  /** The sections one chunk of the split text contributes. */
  function ChunkSections(paragraph: string): seq<ParsedSection>
  {
    var trimmed := Trim(paragraph);
    if trimmed == [] then []
    else
      var lines := SplitOn(trimmed, '\n');
      var firstLine := Trim(lines[0]);
      var c := ClassifyLine(firstLine);
      if c.kind.Some? && |lines| == 1 then
        [ParsedSection(c.title, trimmed, c.kind.value)]
      else if c.kind.Some? && |lines| > 1 then
        var rest := Trim(Join(lines[1..], '\n'));
        [ParsedSection(c.title, firstLine, c.kind.value)] +
        (if rest != [] then [ParsedSection(None, rest, Paragraph)] else [])
      else
        [ParsedSection(None, trimmed, Paragraph)]
  }

  /** The sections of a list of chunks, in chunk order. */
  function ParseChunks(chunks: seq<string>): seq<ParsedSection>
  {
    if |chunks| == 0 then [] else ParseChunks(chunks[..|chunks| - 1]) + ChunkSections(chunks[|chunks| - 1])
  }

  /** parseScriptText as a value. */
  function Parse(text: string): seq<ParsedSection>
  {
    ParseChunks(SplitBlankLines(text))
  }

  lemma AppendAssoc<T>(a: seq<T>, b: seq<T>, c: seq<T>)
    ensures (a + b) + c == a + (b + c)
  {
  }

  /** parseScriptText. */
  method ParseScriptText(text: string) returns (sections: seq<ParsedSection>)
    ensures sections == Parse(text)
  {
    sections := [];
    var paragraphs := SplitBlankLines(text);
    for i := 0 to |paragraphs|
      invariant sections == ParseChunks(paragraphs[..i])
    {
      assert paragraphs[..i + 1][..i] == paragraphs[..i];
      ghost var before := sections;
      ghost var chunk := ChunkSections(paragraphs[i]);
      assert ParseChunks(paragraphs[..i + 1]) == before + chunk;
      var trimmed := Trim(paragraphs[i]);
      if trimmed == [] {
        assert chunk == [];
        assert before + chunk == before;
        continue;
      }
      var lines := SplitOn(trimmed, '\n');
      var firstLine := Trim(lines[0]);
      var classification := ClassifyLine(firstLine);
      if classification.kind.Some? && |lines| == 1 {
        sections := sections + [ParsedSection(classification.title, trimmed, classification.kind.value)];
        assert chunk == [ParsedSection(classification.title, trimmed, classification.kind.value)];
      } else if classification.kind.Some? && |lines| > 1 {
        sections := sections + [ParsedSection(classification.title, firstLine, classification.kind.value)];
        var rest := Trim(Join(lines[1..], '\n'));
        if rest != [] {
          AppendAssoc(before, [ParsedSection(classification.title, firstLine, classification.kind.value)],
                      [ParsedSection(None, rest, Paragraph)]);
          sections := sections + [ParsedSection(None, rest, Paragraph)];
          assert chunk == [ParsedSection(classification.title, firstLine, classification.kind.value)] +
                          [ParsedSection(None, rest, Paragraph)];
        } else {
          assert chunk == [ParsedSection(classification.title, firstLine, classification.kind.value)];
        }
      } else {
        sections := sections + [ParsedSection(None, trimmed, Paragraph)];
        assert chunk == [ParsedSection(None, trimmed, Paragraph)];
      }
    }
    assert paragraphs[..|paragraphs|] == paragraphs;
  }

  // ---------------------------------------------------------------------------
  // Properties
  // ---------------------------------------------------------------------------

  /** A body the parser may emit: non-empty, trimmed, without a blank line. */
  predicate GoodBody(b: string) {
    b != [] && IsTrimmed(b) && NoBlankLine(b)
  }

  /**
   * What every parsed section satisfies: its body is good, it has a title exactly
   * when it is not a paragraph, and a title is the body itself.
   */
  predicate WellFormedSection(p: ParsedSection) {
    && GoodBody(p.body)
    && (p.title.None? <==> p.sectionType == Paragraph)
    && (p.title.Some? ==> p.title.value == p.body)
  }

  predicate AllWellFormed(r: seq<ParsedSection>) {
    forall i :: 0 <= i < |r| ==> WellFormedSection(r[i])
  }

  lemma AllWellFormedAppend(a: seq<ParsedSection>, b: seq<ParsedSection>)
    requires AllWellFormed(a) && AllWellFormed(b)
    ensures AllWellFormed(a + b)
  {
    assert forall i :: |a| <= i < |a| + |b| ==> (a + b)[i] == b[i - |a|];
  }

  lemma AllWellFormedSingle(p: ParsedSection)
    requires WellFormedSection(p)
    ensures AllWellFormed([p])
  {
  }

  /** A chunk's first line, once classified, is a good body. */
  lemma FirstLineGood(trimmed: string)
    requires NoBlankLine(trimmed)
    ensures var firstLine := Trim(SplitOn(trimmed, '\n')[0]);
            ClassifyLine(firstLine).kind.Some? ==> GoodBody(firstLine)
  {
    var lines := SplitOn(trimmed, '\n');
    var firstLine := Trim(lines[0]);
    if ClassifyLine(firstLine).kind.Some? {
      ClassifiedLineNonEmpty(firstLine);
      TrimOfTrimmed(firstLine);
      LineHasNoBlankLine(lines[0]);
      TrimNoBlankLine(lines[0]);
    }
  }

  /** The sections of one chunk without blank lines are well formed. */
  lemma ChunkWellFormed(paragraph: string)
    requires NoBlankLine(paragraph)
    ensures AllWellFormed(ChunkSections(paragraph))
  {
    var r := ChunkSections(paragraph);
    var trimmed := Trim(paragraph);
    if trimmed == [] {
      assert r == [];
    } else {
      TrimNoBlankLine(paragraph);
      var lines := SplitOn(trimmed, '\n');
      var c := ClassifyLine(Trim(lines[0]));
      if c.kind.Some? && |lines| > 1 {
        HeadedChunkWellFormed(paragraph);
      } else {
        var only := if c.kind.Some? then ParsedSection(c.title, trimmed, c.kind.value)
                    else ParsedSection(None, trimmed, Paragraph);
        assert r == [only];
        if c.kind.Some? {
          assert lines == [trimmed];
          TrimIdempotent(paragraph);
          TrimOfTrimmed(Trim(lines[0]));
        }
        AllWellFormedSingle(only);
      }
    }
  }

  /** The case of a classified first line followed by more lines. */
  lemma HeadedChunkWellFormed(paragraph: string)
    requires NoBlankLine(Trim(paragraph))
    requires var lines := SplitOn(Trim(paragraph), '\n');
             |lines| > 1 && ClassifyLine(Trim(lines[0])).kind.Some?
    ensures AllWellFormed(ChunkSections(paragraph))
  {
    var trimmed := Trim(paragraph);
    var lines := SplitOn(trimmed, '\n');
    var firstLine := Trim(lines[0]);
    FirstLineGood(trimmed);
    TailHasNoBlankLine(trimmed);
    TrimOfTrimmed(firstLine);
    HeadedSectionsWellFormed(ClassifyLine(firstLine), firstLine, Trim(Join(lines[1..], '\n')));
  }

  /** A titled section followed by an optional paragraph, each with a good body. */
  lemma HeadedSectionsWellFormed(c: Classification, firstLine: string, rest: string)
    requires c.kind.Some? && c.kind != Some(Paragraph) && c.title == Some(firstLine)
    requires GoodBody(firstLine) && (rest != [] ==> GoodBody(rest))
    ensures AllWellFormed([ParsedSection(c.title, firstLine, c.kind.value)] +
                          (if rest != [] then [ParsedSection(None, rest, Paragraph)] else []))
  {
    var first := ParsedSection(c.title, firstLine, c.kind.value);
    AllWellFormedSingle(first);
    if rest != [] {
      AllWellFormedSingle(ParsedSection(None, rest, Paragraph));
      AllWellFormedAppend([first], [ParsedSection(None, rest, Paragraph)]);
    } else {
      assert [first] + [] == [first];
    }
  }

  /**
   * What a chunk contributes: nothing exactly when it is all whitespace, at most
   * two sections, a pair being a heading section followed by a paragraph, and a
   * paragraph first only as the whole trimmed chunk.
   */
  predicate ChunkShaped(paragraph: string, r: seq<ParsedSection>) {
    && (r == [] <==> AllWhitespace(paragraph))
    && |r| <= 2
    && (|r| == 2 ==> r[0].sectionType != Paragraph && r[1].sectionType == Paragraph)
    && (|r| >= 1 && r[0].sectionType == Paragraph ==> r == [ParsedSection(None, Trim(paragraph), Paragraph)])
  }

  lemma ChunkShapeHeaded(paragraph: string)
    requires Trim(paragraph) != [] && |SplitOn(Trim(paragraph), '\n')| > 1
    requires ClassifyLine(Trim(SplitOn(Trim(paragraph), '\n')[0])).kind.Some?
    ensures ChunkShaped(paragraph, ChunkSections(paragraph))
  {
    var lines := SplitOn(Trim(paragraph), '\n');
    var firstLine := Trim(lines[0]);
    var c := ClassifyLine(firstLine);
    var rest := Trim(Join(lines[1..], '\n'));
    assert ChunkSections(paragraph) == [ParsedSection(c.title, firstLine, c.kind.value)] +
                                       (if rest != [] then [ParsedSection(None, rest, Paragraph)] else []);
  }

  lemma ChunkShapeSingle(paragraph: string)
    requires Trim(paragraph) != [] && !(|SplitOn(Trim(paragraph), '\n')| > 1 &&
             ClassifyLine(Trim(SplitOn(Trim(paragraph), '\n')[0])).kind.Some?)
    ensures ChunkShaped(paragraph, ChunkSections(paragraph))
  {
    var trimmed := Trim(paragraph);
    var c := ClassifyLine(Trim(SplitOn(trimmed, '\n')[0]));
    if c.kind.Some? {
      assert ChunkSections(paragraph) == [ParsedSection(c.title, trimmed, c.kind.value)];
    } else {
      assert ChunkSections(paragraph) == [ParsedSection(None, trimmed, Paragraph)];
    }
  }

  /** The shape of one chunk's sections. */
  lemma ChunkShape(paragraph: string)
    ensures var r := ChunkSections(paragraph);
            && (r == [] <==> AllWhitespace(paragraph))
            && |r| <= 2
            && (|r| == 2 ==> r[0].sectionType != Paragraph && r[1].sectionType == Paragraph)
            && (|r| >= 1 && r[0].sectionType == Paragraph ==> r == [ParsedSection(None, Trim(paragraph), Paragraph)])
  {
    var trimmed := Trim(paragraph);
    if trimmed == [] {
      assert ChunkSections(paragraph) == [];
    } else if |SplitOn(trimmed, '\n')| > 1 && ClassifyLine(Trim(SplitOn(trimmed, '\n')[0])).kind.Some? {
      ChunkShapeHeaded(paragraph);
    } else {
      ChunkShapeSingle(paragraph);
    }
    assert ChunkShaped(paragraph, ChunkSections(paragraph));
  }

  /** A string without a newline has no blank line. */
  lemma LineHasNoBlankLine(s: string)
    requires '\n' !in s
    ensures NoBlankLine(s)
  {
    forall i, j | 0 <= i < j < |s| ensures !HasBlankLine(s, i, j) {
      assert s[i] in s;
    }
  }

  /** What follows the first line of a chunk, rejoined and trimmed, has no blank line. */
  lemma TailHasNoBlankLine(trimmed: string)
    requires NoBlankLine(trimmed) && '\n' in trimmed
    ensures NoBlankLine(Trim(Join(SplitOn(trimmed, '\n')[1..], '\n')))
  {
    var k := IndexOf(trimmed, '\n');
    var tail := trimmed[k + 1..|trimmed|];
    assert NoBlankLine(tail) by {
      NoBlankLineSlice(trimmed, k + 1, |trimmed|);
    }
    assert Join(SplitOn(trimmed, '\n')[1..], '\n') == tail by {
      SplitHeadTail(trimmed, '\n');
      assert trimmed[k + 1..] == tail;
    }
    TrimNoBlankLine(tail);
  }

  /** Trimming keeps a string free of blank lines. */
  lemma TrimNoBlankLine(s: string)
    requires NoBlankLine(s)
    ensures NoBlankLine(Trim(s))
  {
    var a, b := TrimBounds(s);
    NoBlankLineSlice(s, a, b);
  }

  /** The number of chunks that do not trim to empty. */
  function NonBlankCount(chunks: seq<string>): nat
  {
    if |chunks| == 0 then 0
    else NonBlankCount(chunks[..|chunks| - 1]) + (if AllWhitespace(chunks[|chunks| - 1]) then 0 else 1)
  }

  /**
   * Over chunks without blank lines: every emitted body is good, titles match
   * bodies exactly for the titled sections, and each non-blank chunk gives one or
   * two sections.
   */
  lemma {:induction false} ParseChunksProperties(chunks: seq<string>)
    requires forall k :: 0 <= k < |chunks| ==> NoBlankLine(chunks[k])
    ensures var r := ParseChunks(chunks);
            && AllWellFormed(r)
            && NonBlankCount(chunks) <= |r| <= 2 * NonBlankCount(chunks)
    decreases |chunks|
  {
    if |chunks| > 0 {
      var init := chunks[..|chunks| - 1];
      var last := chunks[|chunks| - 1];
      assert forall k :: 0 <= k < |init| ==> init[k] == chunks[k];
      ParseChunksProperties(init);
      ChunkWellFormed(last);
      ChunkShape(last);
      var a := ParseChunks(init);
      var b := ChunkSections(last);
      assert ParseChunks(chunks) == a + b;
      assert NonBlankCount(chunks) == NonBlankCount(init) + (if AllWhitespace(last) then 0 else 1);
      AllWellFormedAppend(a, b);
    }
  }

  /**
   * parseScriptText: every body is non-empty, trimmed and free of blank lines; a
   * section has a title exactly when it is not a paragraph, and then the title is
   * the body; the section count lies between the number of non-blank chunks and
   * twice that.
   */
  lemma ParseProperties(text: string)
    ensures var r := Parse(text); var n := NonBlankCount(SplitBlankLines(text));
            && AllWellFormed(r)
            && n <= |r| <= 2 * n
  {
    ParseChunksProperties(SplitBlankLines(text));
  }

  /** Chunks that trim to empty contribute nothing. */
  lemma {:induction false} ParseChunksBlank(chunks: seq<string>)
    requires forall k :: 0 <= k < |chunks| ==> AllWhitespace(chunks[k])
    ensures ParseChunks(chunks) == []
    decreases |chunks|
  {
    if |chunks| > 0 {
      var init := chunks[..|chunks| - 1];
      assert forall k :: 0 <= k < |init| ==> init[k] == chunks[k];
      ParseChunksBlank(init);
    }
  }

  /** Empty or whitespace-only input yields no sections. */
  lemma ParseWhitespaceOnly(text: string)
    requires AllWhitespace(text)
    ensures Parse(text) == []
  {
    var chunks := SplitBlankLines(text);
    forall k | 0 <= k < |chunks| ensures AllWhitespace(chunks[k]) {
      WhitespaceSlice(chunks[k], text);
    }
    ParseChunksBlank(chunks);
  }

  /** Text without a blank line is parsed as one chunk. */
  lemma ParseSingleChunk(text: string)
    requires NoBlankLine(text)
    ensures Parse(text) == ChunkSections(text)
  {
    SplitWithoutBlankLine(text);
    assert [text][..0] == [];
    assert ParseChunks([text]) == ParseChunks([]) + ChunkSections(text);
  }

  // ---------------------------------------------------------------------------
  // What each chunk contributes, and what the parse as a whole drops
  // ---------------------------------------------------------------------------

  /** The trimmed first line of a text that holds a newline. */
  function HeadLine(t: string): string
    requires '\n' in t
  {
    Trim(t[..IndexOf(t, '\n')])
  }

  /** The trimmed text after the first newline. */
  function RestLines(t: string): string
    requires '\n' in t
  {
    Trim(t[IndexOf(t, '\n') + 1..])
  }

  /** The paragraph that follows a heading line: none when the rest of the chunk is blank. */
  function RestSection(rest: string): seq<ParsedSection> {
    if rest != [] then [ParsedSection(None, rest, Paragraph)] else []
  }

  /**
   * The sections of one chunk, stated on its trimmed text: nothing for a blank
   * chunk; a one-line chunk is one section, typed and titled by classifyLine when
   * its line is classified; in a longer chunk the trimmed first line is
   * classified, and a classified first line becomes a titled section followed by
   * a paragraph of the trimmed rest when that rest is not blank, while an
   * unclassified one leaves the whole chunk a paragraph.
   */
  lemma ChunkContents(paragraph: string)
    ensures Trim(paragraph) == [] ==> ChunkSections(paragraph) == []
    ensures Trim(paragraph) != [] && '\n' !in Trim(paragraph) && ClassifyLine(Trim(paragraph)).kind.Some? ==>
            ChunkSections(paragraph) ==
              [ParsedSection(Some(Trim(paragraph)), Trim(paragraph), ClassifyLine(Trim(paragraph)).kind.value)]
    ensures Trim(paragraph) != [] && '\n' !in Trim(paragraph) && ClassifyLine(Trim(paragraph)).kind.None? ==>
            ChunkSections(paragraph) == [ParsedSection(None, Trim(paragraph), Paragraph)]
    ensures '\n' in Trim(paragraph) && ClassifyLine(HeadLine(Trim(paragraph))).kind.Some? ==>
            ChunkSections(paragraph) ==
              [ParsedSection(Some(HeadLine(Trim(paragraph))), HeadLine(Trim(paragraph)),
                             ClassifyLine(HeadLine(Trim(paragraph))).kind.value)] +
              RestSection(RestLines(Trim(paragraph)))
    ensures '\n' in Trim(paragraph) && ClassifyLine(HeadLine(Trim(paragraph))).kind.None? ==>
            ChunkSections(paragraph) == [ParsedSection(None, Trim(paragraph), Paragraph)]
  {
    var t := Trim(paragraph);
    if t != [] {
      if '\n' !in t {
        OneLineChunk(paragraph);
      } else if ClassifyLine(HeadLine(t)).kind.Some? {
        HeadedChunk(paragraph);
      } else {
        UnheadedChunk(paragraph);
      }
    }
  }

  lemma OneLineChunk(paragraph: string)
    requires Trim(paragraph) != [] && '\n' !in Trim(paragraph)
    ensures ClassifyLine(Trim(paragraph)).kind.Some? ==>
            ChunkSections(paragraph) ==
              [ParsedSection(Some(Trim(paragraph)), Trim(paragraph), ClassifyLine(Trim(paragraph)).kind.value)]
    ensures ClassifyLine(Trim(paragraph)).kind.None? ==>
            ChunkSections(paragraph) == [ParsedSection(None, Trim(paragraph), Paragraph)]
  {
    var t := Trim(paragraph);
    assert SplitOn(t, '\n') == [t];
    TrimOfTrimmed(t);
  }

  /** The first line and the rest of a text with a newline, as the parser's split and join find them. */
  lemma LinesOfChunk(t: string)
    requires '\n' in t
    ensures |SplitOn(t, '\n')| > 1
    ensures Trim(SplitOn(t, '\n')[0]) == HeadLine(t)
    ensures Trim(Join(SplitOn(t, '\n')[1..], '\n')) == RestLines(t)
  {
    SplitHeadTail(t, '\n');
  }

  lemma HeadedChunk(paragraph: string)
    requires '\n' in Trim(paragraph) && ClassifyLine(HeadLine(Trim(paragraph))).kind.Some?
    ensures ChunkSections(paragraph) ==
            [ParsedSection(Some(HeadLine(Trim(paragraph))), HeadLine(Trim(paragraph)),
                           ClassifyLine(HeadLine(Trim(paragraph))).kind.value)] +
            RestSection(RestLines(Trim(paragraph)))
  {
    var t := Trim(paragraph);
    LinesOfChunk(t);
    TrimIdempotent(t[..IndexOf(t, '\n')]);
  }

  lemma UnheadedChunk(paragraph: string)
    requires '\n' in Trim(paragraph) && ClassifyLine(HeadLine(Trim(paragraph))).kind.None?
    ensures ChunkSections(paragraph) == [ParsedSection(None, Trim(paragraph), Paragraph)]
  {
    LinesOfChunk(Trim(paragraph));
  }

  /**
   * A chunk gives two sections exactly when it holds a newline, its trimmed first
   * line is classified and its trimmed rest is not blank; the two are then that
   * line as a titled section and the rest as a paragraph.
   */
  lemma TwoSectionsExactly(paragraph: string)
    ensures |ChunkSections(paragraph)| == 2 <==>
            '\n' in Trim(paragraph) && ClassifyLine(HeadLine(Trim(paragraph))).kind.Some? &&
            RestLines(Trim(paragraph)) != []
    ensures |ChunkSections(paragraph)| == 2 ==>
            ChunkSections(paragraph) ==
              [ParsedSection(Some(HeadLine(Trim(paragraph))), HeadLine(Trim(paragraph)),
                             ClassifyLine(HeadLine(Trim(paragraph))).kind.value),
               ParsedSection(None, RestLines(Trim(paragraph)), Paragraph)]
  {
    ChunkContents(paragraph);
  }

  /** The bodies of a list of sections, in order. */
  function Bodies(r: seq<ParsedSection>): (b: seq<string>)
    ensures |b| == |r| && forall k :: 0 <= k < |r| ==> b[k] == r[k].body
  {
    if r == [] then [] else [r[0].body] + Bodies(r[1..])
  }

  lemma BodiesAppend(x: seq<ParsedSection>, y: seq<ParsedSection>)
    ensures Bodies(x + y) == Bodies(x) + Bodies(y)
  {
    assert Bodies(x + y) == Bodies(x) + Bodies(y);
  }

  /** `ws` are whitespace-only strings that, interleaved with `bodies`, give `t`. */
  predicate Covers(ws: seq<string>, bodies: seq<string>, t: string) {
    && |ws| == |bodies| + 1
    && (forall k :: 0 <= k < |ws| ==> AllWhitespace(ws[k]))
    && Interleave(ws, bodies) == t
  }

  /** `t` is the strings `bodies`, in order, with only whitespace before, between and after them. */
  ghost predicate OnlyWhitespaceAround(t: string, bodies: seq<string>) {
    exists ws :: Covers(ws, bodies, t)
  }

  /** The last piece of `wa` and the first of `wb`, joined through `mid`. */
  function Glue(wa: seq<string>, mid: string, wb: seq<string>): (ws: seq<string>)
    requires |wa| >= 1 && |wb| >= 1
    ensures |ws| == |wa| + |wb| - 1
  {
    wa[..|wa| - 1] + [wa[|wa| - 1] + mid + wb[0]] + wb[1..]
  }

  /** Interleavings glue together at a shared piece. */
  lemma {:induction false} InterleaveGlue(wa: seq<string>, x: seq<string>, mid: string, wb: seq<string>, y: seq<string>)
    requires |wa| == |x| + 1 && |wb| == |y| + 1
    ensures Interleave(Glue(wa, mid, wb), x + y) == Interleave(wa, x) + mid + Interleave(wb, y)
    decreases |x|
  {
    var ws := Glue(wa, mid, wb);
    if |x| == 0 {
      assert ws == [wa[0] + mid + wb[0]] + wb[1..];
      assert x + y == y;
      InterleavePrepend(wa[0] + mid, wb, y);
    } else {
      InterleaveGlue(wa[1..], x[1..], mid, wb, y);
      assert ws[1..] == Glue(wa[1..], mid, wb);
      assert (x + y)[1..] == x[1..] + y;
      var tail := Interleave(wa[1..], x[1..]);
      assert Interleave(ws, x + y) == wa[0] + x[0] + (tail + mid + Interleave(wb, y));
      assert Interleave(wa, x) == wa[0] + x[0] + tail;
    }
  }

  /** Text put before the first outer piece goes before the whole interleaving. */
  lemma InterleavePrepend(u: string, wb: seq<string>, y: seq<string>)
    requires |wb| == |y| + 1
    ensures Interleave([u + wb[0]] + wb[1..], y) == u + Interleave(wb, y)
  {
    var ws := [u + wb[0]] + wb[1..];
    if |y| > 0 {
      assert ws[1..] == wb[1..];
    }
  }

  /** Two covered texts joined by whitespace are covered by the glued pieces. */
  lemma CoversJoin(wa: seq<string>, x: seq<string>, a: string, mid: string,
                   wb: seq<string>, y: seq<string>, b: string)
    requires Covers(wa, x, a) && Covers(wb, y, b) && AllWhitespace(mid)
    ensures Covers(Glue(wa, mid, wb), x + y, a + mid + b)
  {
    var n := |wa| - 1;
    assert AllWhitespace(wa[n] + mid + wb[0]) by {
      AllWhitespaceConcat(wa[n], mid);
      AllWhitespaceConcat(wa[n] + mid, wb[0]);
    }
    var ws := Glue(wa, mid, wb);
    InterleaveGlue(wa, x, mid, wb, y);
    forall k | 0 <= k < |ws| ensures AllWhitespace(ws[k]) {
      if k < n { assert ws[k] == wa[k]; }
      else if k > n { assert ws[k] == wb[k - n]; }
    }
  }

  lemma CoversBlank(u: string)
    requires AllWhitespace(u)
    ensures Covers([u], [], u)
  {
  }

  /** Whitespace on both sides of a covered text keeps its bodies. */
  lemma CoversWrap(ws: seq<string>, x: seq<string>, t: string, u: string, v: string) returns (ws': seq<string>)
    requires Covers(ws, x, t) && AllWhitespace(u) && AllWhitespace(v)
    ensures Covers(ws', x, u + t + v)
  {
    CoversBlank(u);
    CoversBlank(v);
    assert AllWhitespace([]);
    CoversJoin([u], [], u, [], ws, x, t);
    assert [] + x == x && u + [] + t == u + t;
    var w1 := Glue([u], [], ws);
    CoversJoin(w1, x, u + t, [], [v], [], v);
    assert x + [] == x && u + t + [] + v == u + t + v;
    ws' := Glue(w1, [], [v]);
  }

  /** The bodies a text contributes when it is trimmed to one section body, or to none. */
  function TrimmedBodies(t: string): seq<string> {
    if Trim(t) == [] then [] else [Trim(t)]
  }

  /** A string is its trim surrounded by whitespace. */
  lemma CoversTrim(t: string) returns (ws: seq<string>)
    ensures Covers(ws, TrimmedBodies(t), t)
  {
    var a, b := TrimBounds(t);
    if Trim(t) == [] {
      ws := [t];
    } else {
      ws := [t[..a], t[b..]];
      assert Interleave(ws, [Trim(t)]) == t[..a] + (t[a..b] + t[b..]);
      assert t == t[..a] + (t[a..b] + t[b..]);
    }
  }

  /** A chunk is its sections' bodies, in order, with whitespace around them. */
  lemma ChunkCovered(paragraph: string) returns (ws: seq<string>)
    ensures Covers(ws, Bodies(ChunkSections(paragraph)), paragraph)
  {
    var t := Trim(paragraph);
    if '\n' in t && ClassifyLine(HeadLine(t)).kind.Some? {
      ws := HeadedChunkCovered(paragraph);
    } else {
      assert Bodies(ChunkSections(paragraph)) == TrimmedBodies(paragraph) by {
        ChunkContents(paragraph);
      }
      ws := CoversTrim(paragraph);
    }
  }

  lemma HeadedChunkCovered(paragraph: string) returns (ws: seq<string>)
    requires '\n' in Trim(paragraph) && ClassifyLine(HeadLine(Trim(paragraph))).kind.Some?
    ensures Covers(ws, Bodies(ChunkSections(paragraph)), paragraph)
  {
    HeadedChunkBodies(paragraph);
    var w := HeadedTextCovered(Trim(paragraph));
    ws := CoversUntrimmed(w, HeadedBodies(Trim(paragraph)), paragraph);
  }

  /** The bodies of a headed chunk: its trimmed first line, then its trimmed rest unless blank. */
  lemma HeadedChunkBodies(paragraph: string)
    requires '\n' in Trim(paragraph) && ClassifyLine(HeadLine(Trim(paragraph))).kind.Some?
    ensures Bodies(ChunkSections(paragraph)) == HeadedBodies(Trim(paragraph))
  {
    var t := Trim(paragraph);
    var head, rest := HeadLine(t), RestLines(t);
    HeadedChunk(paragraph);
    BodiesOfHeaded(ParsedSection(Some(head), head, ClassifyLine(head).kind.value), rest);
  }

  /** The whitespace trimming removes keeps the bodies of the trimmed text. */
  lemma CoversUntrimmed(ws: seq<string>, x: seq<string>, paragraph: string) returns (ws': seq<string>)
    requires Covers(ws, x, Trim(paragraph))
    ensures Covers(ws', x, paragraph)
  {
    var a, b := TrimBounds(paragraph);
    ws' := CoversWrap(ws, x, Trim(paragraph), paragraph[..a], paragraph[b..]);
  }

  /** The bodies a text with a classified first line contributes: that line, then its trimmed rest unless blank. */
  function HeadedBodies(t: string): seq<string>
    requires '\n' in t
  {
    [HeadLine(t)] + TrimmedBodies(t[IndexOf(t, '\n') + 1..])
  }

  /** A text with a newline is its first line's trim and its rest's trim, with whitespace around them. */
  lemma HeadedTextCovered(t: string) returns (ws: seq<string>)
    requires '\n' in t && ClassifyLine(HeadLine(t)).kind.Some?
    ensures Covers(ws, HeadedBodies(t), t)
  {
    var k := IndexOf(t, '\n');
    var head := HeadLine(t);
    assert TrimmedBodies(t[..k]) == [head] by {
      ClassifiedLineNonEmpty(head);
      TrimIdempotent(t[..k]);
    }
    var w1 := CoversTrim(t[..k]);
    var w2 := CoversTrim(t[k + 1..]);
    assert AllWhitespace([t[k]]);
    CoversJoin(w1, [head], t[..k], [t[k]], w2, TrimmedBodies(t[k + 1..]), t[k + 1..]);
    SplitAround(t, k);
    ws := Glue(w1, [t[k]], w2);
  }

  lemma BodiesOfHeaded(first: ParsedSection, rest: string)
    ensures Bodies([first] + RestSection(rest)) == [first.body] + (if rest == [] then [] else [rest])
  {
    if rest == [] {
      assert [first] + [] == [first];
    } else {
      assert [first] + [ParsedSection(None, rest, Paragraph)] == [first, ParsedSection(None, rest, Paragraph)];
    }
  }

  /** The sections of a list of chunks start with those of its first chunk. */
  lemma {:induction false} ParseChunksCons(chunks: seq<string>)
    requires |chunks| > 0
    ensures ParseChunks(chunks) == ChunkSections(chunks[0]) + ParseChunks(chunks[1..])
    decreases |chunks|
  {
    var n := |chunks|;
    if n == 1 {
      assert chunks[..0] == [] && chunks[1..] == [];
    } else {
      var init := chunks[..n - 1];
      ParseChunksCons(init);
      assert init[0] == chunks[0];
      assert chunks[1..][..n - 2] == init[1..];
      AppendAssoc(ChunkSections(chunks[0]), ParseChunks(init[1..]), ChunkSections(chunks[n - 1]));
    }
  }

  /** Chunks joined by whitespace are their sections' bodies with whitespace around them. */
  lemma {:induction false} InterleaveCovered(chunks: seq<string>, seps: seq<string>) returns (ws: seq<string>)
    requires |chunks| == |seps| + 1
    requires forall k :: 0 <= k < |seps| ==> AllWhitespace(seps[k])
    ensures Covers(ws, Bodies(ParseChunks(chunks)), Interleave(chunks, seps))
    decreases |seps|
  {
    ParseChunksCons(chunks);
    var w0 := ChunkCovered(chunks[0]);
    if |seps| == 0 {
      assert chunks[1..] == [];
      assert ChunkSections(chunks[0]) + [] == ChunkSections(chunks[0]);
      ws := w0;
    } else {
      var w1 := InterleaveCovered(chunks[1..], seps[1..]);
      CoversJoin(w0, Bodies(ChunkSections(chunks[0])), chunks[0], seps[0],
                 w1, Bodies(ParseChunks(chunks[1..])), Interleave(chunks[1..], seps[1..]));
      BodiesAppend(ChunkSections(chunks[0]), ParseChunks(chunks[1..]));
      ws := Glue(w0, seps[0], w1);
    }
  }

  /**
   * parseScriptText drops nothing but whitespace: the text is the bodies of its
   * sections, in order, with only whitespace before, between and after them.
   */
  lemma ParseCoverage(text: string)
    ensures OnlyWhitespaceAround(text, Bodies(Parse(text)))
  {
    var chunks := SplitBlankLines(text);
    var seps := BlankLineSeparators(text);
    var ws := InterleaveCovered(chunks, seps);
    assert Covers(ws, Bodies(Parse(text)), text);
  }

  /** A scene heading followed by a line of action gives a scene and a paragraph. */
  lemma KitchenExample(text: string)
    requires text == "INT. KITCHEN - DAY\nJohn enters."
    ensures Parse(text) ==
            [ParsedSection(Some("INT. KITCHEN - DAY"), "INT. KITCHEN - DAY", Scene),
             ParsedSection(None, "John enters.", Paragraph)]
  {
    KitchenOneChunk(text);
    KitchenSections(text);
    assert text[..18] == "INT. KITCHEN - DAY";
    KitchenAction(text);
    assert RestSection(text[19..]) == [ParsedSection(None, "John enters.", Paragraph)];
  }

  /** The example's chunk: its first line as a scene, then the rest as a paragraph. */
  lemma KitchenSections(text: string)
    requires text == "INT. KITCHEN - DAY\nJohn enters."
    ensures ChunkSections(text) == [ParsedSection(Some(text[..18]), text[..18], Scene)] + RestSection(text[19..])
  {
    KitchenNewlines(text);
    LinesAt(text, 18);
    KitchenHeading(text);
    HeadedChunk(text);
  }

  lemma KitchenOneChunk(text: string)
    requires text == "INT. KITCHEN - DAY\nJohn enters."
    ensures Parse(text) == ChunkSections(text)
  {
    assert NoBlankLine(text) by {
      forall i, j | 0 <= i < j < |text| ensures !HasBlankLine(text, i, j) {
        KitchenNewlines(text);
      }
    }
    ParseSingleChunk(text);
  }

  /** The second line of the example. */
  lemma KitchenAction(text: string)
    requires text == "INT. KITCHEN - DAY\nJohn enters."
    ensures text[19..] == "John enters."
  {
    var rest := text[19..];
    assert |rest| == 12;
    assert rest[0] == 'J' && rest[1] == 'o' && rest[2] == 'h' && rest[3] == 'n';
    assert rest[4] == ' ' && rest[5] == 'e' && rest[6] == 'n' && rest[7] == 't';
    assert rest[8] == 'e' && rest[9] == 'r' && rest[10] == 's' && rest[11] == '.';
  }

  /** The example's only newline is at position 18. */
  lemma KitchenNewlines(text: string)
    requires text == "INT. KITCHEN - DAY\nJohn enters."
    ensures |text| == 31 && text[18] == '\n'
    ensures forall k :: 0 <= k < |text| && text[k] == '\n' ==> k == 18
    ensures IsTrimmed(text) && IsTrimmed(text[..18]) && IsTrimmed(text[19..])
  {
  }

  /**
   * In a trimmed text whose only newline is at `k` and whose two lines are
   * trimmed, the parser's first line and rest are exactly those two lines.
   */
  lemma LinesAt(text: string, k: nat)
    requires k < |text| && text[k] == '\n'
    requires forall j :: 0 <= j < |text| && text[j] == '\n' ==> j == k
    requires IsTrimmed(text) && IsTrimmed(text[..k]) && IsTrimmed(text[k + 1..])
    ensures Trim(text) == text && '\n' in text
    ensures HeadLine(text) == text[..k] && RestLines(text) == text[k + 1..]
  {
    TrimOfTrimmed(text);
    assert IndexOf(text, '\n') == k;
    TrimOfTrimmed(text[..k]);
    TrimOfTrimmed(text[k + 1..]);
  }

  lemma KitchenHeading(text: string)
    requires text == "INT. KITCHEN - DAY\nJohn enters."
    ensures ClassifyLine(text[..18]).kind == Some(Scene)
  {
    var head := text[..18];
    assert head == "INT. KITCHEN - DAY";
    TrimOfTrimmed(head);
    assert !ActMatch(head) && !SceneMatch(head);
    assert head[..4] == "INT.";
    assert IntExtMatch(head);
  }
}
