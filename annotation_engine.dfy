/**
 * The annotation engine (src/lib/annotationEngine.ts): coverage categories and
 * their colours, and the span resolver that turns possibly overlapping,
 * possibly out-of-range highlight offsets over a section's text into an ordered,
 * gap-free partition of that text, each span tagged with the ids of the
 * highlights that contain it. Offsets count UTF-16 code units (`char`).
 */
module AnnotationEngine {
  import opened Wrappers
  import opened Records
  import opened Seqs

  // ---------------------------------------------------------------------------
  // Coverage categories (the COVERAGE_TYPES table)
  // ---------------------------------------------------------------------------

  datatype CoverageType = Media | Graphics | OnCamera | FieldFootage

  /** The table key of a category, as stored in a highlight's label. */
  function Key(t: CoverageType): string {
    match t
    case Media => "media"
    case Graphics => "graphics"
    case OnCamera => "on_camera"
    case FieldFootage => "field_footage"
  }

  function DisplayLabel(t: CoverageType): string {
    match t
    case Media => "Media"
    case Graphics => "Graphics"
    case OnCamera => "On Camera"
    case FieldFootage => "Field Footage"
  }

  function DefaultColor(t: CoverageType): string {
    match t
    case Media => "var(--highlight-blue)"
    case Graphics => "var(--highlight-green)"
    case OnCamera => "var(--highlight-amber)"
    case FieldFootage => "var(--highlight-purple)"
  }

  predicate IsCoverageKey(s: string) {
    exists t: CoverageType :: Key(t) == s
  }

  /** `key in COVERAGE_TYPES`, restricted to the four keys of the table. */
  function CoverageTypeOf(key: string): (r: Option<CoverageType>)
    ensures r.Some? <==> IsCoverageKey(key)
    ensures r.Some? ==> Key(r.value) == key
  {
    assert IsCoverageKey(key) ==> key in {"media", "graphics", "on_camera", "field_footage"} by {
      if IsCoverageKey(key) {
        var t :| Key(t) == key;
        assert t.Media? || t.Graphics? || t.OnCamera? || t.FieldFootage?;
      }
    }
    assert Key(Media) == "media" && Key(Graphics) == "graphics";
    assert Key(OnCamera) == "on_camera" && Key(FieldFootage) == "field_footage";
    if key == "media" then Some(Media)
    else if key == "graphics" then Some(Graphics)
    else if key == "on_camera" then Some(OnCamera)
    else if key == "field_footage" then Some(FieldFootage)
    else None
  }

  /** getCoverageType: the label when it names a category, else the legacy default "media". */
  function GetCoverageType(h: Highlight): (t: CoverageType)
    ensures h.labelKey.Some? && IsCoverageKey(h.labelKey.value) ==> Key(t) == h.labelKey.value
    ensures !(h.labelKey.Some? && IsCoverageKey(h.labelKey.value)) ==> t == Media
  {
    if h.labelKey.Some? && h.labelKey.value != "" then CoverageTypeOf(h.labelKey.value).GetOr(Media)
    else Media
  }

  /** getHighlightCssColor: a non-empty per-highlight colour wins over the category colour. */
  function GetHighlightCssColor(h: Highlight): (c: string)
    ensures h.color.Some? && h.color.value != "" ==> c == h.color.value
    ensures h.color.None? || h.color.value == "" ==> c == DefaultColor(GetCoverageType(h))
    ensures c != ""
  {
    if h.color.Some? && h.color.value != "" then h.color.value
    else DefaultColor(GetCoverageType(h))
  }

  /** getSpanColor: the colour of the first listed id only; later ids are ignored. */
  function GetSpanColor(ids: seq<string>, all: seq<Highlight>): (c: string)
    ensures ids == [] ==> c == "transparent"
    ensures ids != [] && (forall j :: 0 <= j < |all| ==> all[j].id != ids[0]) ==> c == DefaultColor(Media)
    ensures ids != [] ==>
              forall j :: (0 <= j < |all| && all[j].id == ids[0] &&
                           forall i :: 0 <= i < j ==> all[i].id != ids[0]) ==> c == GetHighlightCssColor(all[j])
  {
    if |ids| == 0 then "transparent"
    else
      var found := FindFirst(all, (h: Highlight) => h.id == ids[0]);
      if found.None? then DefaultColor(Media) else GetHighlightCssColor(found.value)
  }

  /** Only the first id decides a span's colour. */
  lemma SpanColorFirstIdOnly(ids: seq<string>, all: seq<Highlight>)
    requires ids != []
    ensures GetSpanColor(ids, all) == GetSpanColor([ids[0]], all)
  {
  }

  /** The LINE_VAR_MAP table from a background colour to its line variant. */
  const LineVariants: map<string, string> := map[
    "var(--highlight-blue)" := "var(--highlight-blue-line)",
    "var(--highlight-green)" := "var(--highlight-green-line)",
    "var(--highlight-amber)" := "var(--highlight-amber-line)",
    "var(--highlight-purple)" := "var(--highlight-purple-line)",
    "var(--highlight-rose)" := "var(--highlight-rose-line)"]

  /**
   * The table lookup of toLineColor. `None` stands for a colour outside the
   * table, which the source rewrites with a regular expression (not modelled).
   */
  function ToLineColor(bg: string): (r: Option<string>)
    ensures r.Some? <==> bg in LineVariants
    ensures r.Some? ==> r.value == bg[..|bg| - 1] + "-line)"
  {
    if bg in LineVariants then Some(LineVariants[bg]) else None
  }

  /** Every category colour and every collaborator colour has a line variant. */
  lemma KnownColorsHaveLineVariant()
    ensures forall t :: ToLineColor(DefaultColor(t)).Some?
    ensures forall i :: 0 <= i < |HighlightColors| ==> ToLineColor(HighlightColors[i]).Some?
  {
  }

  // ---------------------------------------------------------------------------
  // Collaborator colours
  // ---------------------------------------------------------------------------

  const HighlightColors: seq<string> := [
    "var(--highlight-blue)",
    "var(--highlight-amber)",
    "var(--highlight-green)",
    "var(--highlight-purple)",
    "var(--highlight-rose)"]

  /** JavaScript's `%`: the remainder takes the sign of the dividend. */
  function JsRemainder(a: int, b: int): (r: int)
    requires b > 0
    ensures -b < r < b
    ensures a >= 0 ==> r == a % b
    ensures a < 0 ==> r <= 0
  {
    if a >= 0 then a % b else -((-a) % b)
  }

  /**
   * getHighlightColor: `HIGHLIGHT_COLORS[index % 5]`. A negative index that is not
   * a multiple of five reads past the array's start and yields `undefined` (None).
   */
  function GetHighlightColor(index: int): (r: Option<string>)
    ensures index >= 0 ==> r.Some? && r.value in HighlightColors
    ensures r.Some? ==> r.value in HighlightColors
  {
    var k := JsRemainder(index, |HighlightColors|);
    if 0 <= k then Some(HighlightColors[k]) else None
  }

  /** The palette repeats every five collaborators. */
  lemma {:induction false} HighlightColorPeriodic(i: int)
    requires i >= 0
    ensures GetHighlightColor(i + 5) == GetHighlightColor(i)
  {
    assert (i + 5) % 5 == i % 5;
  }

  /** A negative index yields a colour only when it is a multiple of five (JavaScript's -0). */
  lemma NegativeIndexColor(i: int)
    requires i < 0
    ensures GetHighlightColor(i).Some? <==> i % 5 == 0
  {
  }

  // ---------------------------------------------------------------------------
  // Render spans
  // ---------------------------------------------------------------------------

  datatype RenderSpan = RenderSpan(text: string, highlightIds: seq<string>, startOffset: int, endOffset: int)

  /** `Math.max(0, Math.min(x, n))`. */
  function Clamp(x: int, n: nat): (r: int)
    ensures 0 <= r <= n
    ensures 0 <= x <= n ==> r == x
    ensures x < 0 ==> r == 0
    ensures x > n ==> r == n
  {
    if x < 0 then 0 else if x > n then n else x
  }

  /** The two clamped offsets of one highlight. */
  function Ends(h: Highlight, n: nat): set<int> {
    {Clamp(h.startOffset, n), Clamp(h.endOffset, n)}
  }

  /** The clamped start and end offsets of every highlight. */
  function ClampedOffsets(hs: seq<Highlight>, n: nat): (r: set<int>)
    ensures forall x :: x in r ==> 0 <= x <= n
  {
    if |hs| == 0 then {} else ClampedOffsets(hs[..|hs| - 1], n) + Ends(hs[|hs| - 1], n)
  }

  /** An offset is collected exactly when it is a clamped end of some highlight. */
  lemma {:induction false} ClampedOffsetsMembers(hs: seq<Highlight>, n: nat)
    ensures forall x :: x in ClampedOffsets(hs, n) <==> exists j :: 0 <= j < |hs| && x in Ends(hs[j], n)
    decreases |hs|
  {
    if |hs| > 0 {
      var init := hs[..|hs| - 1];
      ClampedOffsetsMembers(init, n);
      forall x ensures x in ClampedOffsets(hs, n) <==> exists j :: 0 <= j < |hs| && x in Ends(hs[j], n) {
        if x in ClampedOffsets(init, n) {
          var j :| 0 <= j < |init| && x in Ends(init[j], n);
          assert init[j] == hs[j];
        }
        if exists j :: 0 <= j < |hs| && x in Ends(hs[j], n) {
          var j :| 0 <= j < |hs| && x in Ends(hs[j], n);
          if j < |init| { assert init[j] == hs[j]; }
        }
      }
    }
  }

  /** The boundary set: 0, the text length and every clamped highlight offset. */
  function Boundaries(text: string, hs: seq<Highlight>): (r: set<int>)
    ensures 0 in r && |text| in r
    ensures forall x :: x in r ==> 0 <= x <= |text|
  {
    {0, |text|} + ClampedOffsets(hs, |text|)
  }

  predicate StrictlyIncreasing(s: seq<int>) {
    forall i, j :: 0 <= i < j < |s| ==> s[i] < s[j]
  }

  predicate InRange(s: seq<int>, n: int) {
    forall i :: 0 <= i < |s| ==> 0 <= s[i] <= n
  }

  lemma {:induction false} Least(s: set<int>) returns (m: int)
    requires s != {}
    ensures m in s && forall y :: y in s ==> m <= y
    decreases |s|
  {
    // Set extensionality: a set with no member would be `{}`, which `s` is not.
    if forall y :: y !in s {
      assert false;
    }
    var x :| x in s;
    if s == {x} {
      m := x;
    } else {
      var rest := s - {x};
      var r := Least(rest);
      m := if x < r then x else r;
      forall y | y in s ensures m <= y {
        if y != x { assert y in rest; }
      }
    }
  }

  lemma MinExists(s: set<int>)
    requires s != {}
    ensures exists m :: m in s && forall y :: y in s ==> m <= y
  {
    var m := Least(s);
  }

  /** The ascending enumeration of a finite set of offsets (`Array.from(set).sort((a, b) => a - b)`). */
  ghost function Sorted(s: set<int>): (r: seq<int>)
    ensures StrictlyIncreasing(r)
    ensures forall x :: x in r <==> x in s
    decreases |s|
  {
    if s == {} then []
    else
      MinExists(s);
      var m :| m in s && forall y :: y in s ==> m <= y;
      var rest := Sorted(s - {m});
      assert forall i :: 0 <= i < |rest| ==> m < rest[i] by {
        forall i | 0 <= i < |rest| ensures m < rest[i] {
          assert rest[i] in rest;
        }
      }
      [m] + rest
  }

  /** Two strictly increasing sequences with the same elements start with the same element. */
  lemma HeadsAgree(a: seq<int>, b: seq<int>)
    requires StrictlyIncreasing(a) && StrictlyIncreasing(b) && |a| > 0 && |b| > 0
    requires forall x :: x in a <==> x in b
    ensures a[0] == b[0]
  {
    assert a[0] in a && b[0] in b;
    var i :| 0 <= i < |b| && b[i] == a[0];
    var j :| 0 <= j < |a| && a[j] == b[0];
    assert a[0] <= a[j] && b[0] <= b[i];
  }

  /** Past a shared first element, a member of one increasing sequence's tail is in the other's. */
  lemma TailMember(a: seq<int>, b: seq<int>, x: int)
    requires StrictlyIncreasing(a) && |a| > 0 && |b| > 0 && a[0] == b[0]
    requires forall y :: y in a <==> y in b
    requires x in a[1..]
    ensures x in b[1..]
  {
    var i :| 0 <= i < |a| - 1 && a[1..][i] == x;
    assert a[i + 1] == x && a[0] < a[i + 1];
    assert x in b;
    var j :| 0 <= j < |b| && b[j] == x;
    assert b[1..][j - 1] == x;
  }

  /** Two strictly increasing sequences with the same elements are equal. */
  lemma {:induction false} SortedUnique(a: seq<int>, b: seq<int>)
    requires StrictlyIncreasing(a) && StrictlyIncreasing(b)
    requires forall x :: x in a <==> x in b
    ensures a == b
    decreases |a|
  {
    assert |a| > 0 <==> |b| > 0 by {
      if |a| > 0 { assert a[0] in a; }
      if |b| > 0 { assert b[0] in b; }
    }
    if |a| > 0 {
      HeadsAgree(a, b);
      forall x ensures x in a[1..] <==> x in b[1..] {
        if x in a[1..] { TailMember(a, b, x); }
        if x in b[1..] { TailMember(b, a, x); }
      }
      SortedUnique(a[1..], b[1..]);
      assert a == [a[0]] + a[1..] && b == [b[0]] + b[1..];
    }
  }

  /** A highlight covers the span [a, b) when its raw offsets contain it. */
  predicate Covers(h: Highlight, a: int, b: int) {
    h.startOffset <= a && h.endOffset >= b
  }

  /** `highlights.filter(covers).map(h => h.id)`: the covering ids in input order. */
  function Covering(hs: seq<Highlight>, a: int, b: int): (ids: seq<string>)
    ensures |ids| <= |hs|
    ensures forall id :: id in ids <==> exists j :: 0 <= j < |hs| && hs[j].id == id && Covers(hs[j], a, b)
  {
    if |hs| == 0 then []
    else
      var init := hs[..|hs| - 1];
      var last := hs[|hs| - 1];
      assert forall j :: 0 <= j < |init| ==> init[j] == hs[j];
      Covering(init, a, b) + (if Covers(last, a, b) then [last.id] else [])
  }

  /** Covering ids keep the input order: covering distributes over concatenation. */
  lemma {:induction false} CoveringAppend(x: seq<Highlight>, y: seq<Highlight>, a: int, b: int)
    ensures Covering(x + y, a, b) == Covering(x, a, b) + Covering(y, a, b)
    decreases |y|
  {
    if |y| == 0 {
      assert x + y == x;
    } else {
      var y' := y[..|y| - 1];
      assert (x + y)[..|x + y| - 1] == x + y';
      CoveringAppend(x, y', a, b);
    }
  }

  /** The first covering id belongs to the first covering highlight in input order. */
  lemma {:induction false} CoveringFirst(hs: seq<Highlight>, a: int, b: int)
    requires Covering(hs, a, b) != []
    ensures exists j :: 0 <= j < |hs| && Covers(hs[j], a, b) && hs[j].id == Covering(hs, a, b)[0] &&
                        forall i :: 0 <= i < j ==> !Covers(hs[i], a, b)
  {
    var init := hs[..|hs| - 1];
    assert forall j :: 0 <= j < |init| ==> init[j] == hs[j];
    if Covering(init, a, b) != [] {
      CoveringFirst(init, a, b);
      var j :| 0 <= j < |init| && Covers(init[j], a, b) && init[j].id == Covering(init, a, b)[0] &&
               forall i :: 0 <= i < j ==> !Covers(init[i], a, b);
      assert Covering(hs, a, b)[0] == Covering(init, a, b)[0];
    } else {
      var j := |hs| - 1;
      forall i | 0 <= i < j ensures !Covers(hs[i], a, b) {
        assert init[i] == hs[i];
        assert init[i].id !in Covering(init, a, b);
      }
    }
  }

  function SpanAt(text: string, hs: seq<Highlight>, a: int, b: int): (s: RenderSpan)
    requires 0 <= a <= b <= |text|
  {
    RenderSpan(text[a..b], Covering(hs, a, b), a, b)
  }

  /** Dropping the last boundary keeps a list increasing and in range. */
  lemma PrefixIncreasing(bs: seq<int>, n: int)
    requires StrictlyIncreasing(bs) && InRange(bs, n) && |bs| > 0
    ensures StrictlyIncreasing(bs[..|bs| - 1]) && InRange(bs[..|bs| - 1], n)
  {
  }

  /** One span between each pair of consecutive boundaries, in order. */
  function SpansOver(text: string, hs: seq<Highlight>, bs: seq<int>): (r: seq<RenderSpan>)
    requires StrictlyIncreasing(bs) && InRange(bs, |text|)
    ensures |r| == if |bs| == 0 then 0 else |bs| - 1
    decreases |bs|
  {
    if |bs| < 2 then []
    else
      PrefixIncreasing(bs, |text|);
      SpansOver(text, hs, bs[..|bs| - 1]) + [SpanAt(text, hs, bs[|bs| - 2], bs[|bs| - 1])]
  }

  /** The k-th span is the one between the k-th boundary and the next. */
  lemma {:induction false} SpansOverAt(text: string, hs: seq<Highlight>, bs: seq<int>)
    requires StrictlyIncreasing(bs) && InRange(bs, |text|)
    ensures var r := SpansOver(text, hs, bs);
            forall k :: 0 <= k < |r| ==>
              && bs[k] < bs[k + 1] && r[k] == SpanAt(text, hs, bs[k], bs[k + 1])
              && r[k].startOffset == bs[k] && r[k].endOffset == bs[k + 1]
              && r[k].text == text[bs[k]..bs[k + 1]] && r[k].highlightIds == Covering(hs, bs[k], bs[k + 1])
    decreases |bs|
  {
    if |bs| >= 2 {
      var init := bs[..|bs| - 1];
      PrefixIncreasing(bs, |text|);
      SpansOverAt(text, hs, init);
      var r := SpansOver(text, hs, bs);
      var t := SpansOver(text, hs, init);
      forall k | 0 <= k < |r| ensures bs[k] < bs[k + 1] && r[k] == SpanAt(text, hs, bs[k], bs[k + 1]) {
        if k < |t| {
          assert r[k] == t[k];
          assert init[k] == bs[k] && init[k + 1] == bs[k + 1];
        }
      }
    }
  }

  /** A list of spans that has one span per pair of consecutive boundaries is the one SpansOver builds. */
  lemma SpansOverFromElements(text: string, hs: seq<Highlight>, bs: seq<int>, spans: seq<RenderSpan>)
    requires StrictlyIncreasing(bs) && InRange(bs, |text|) && |bs| >= 1
    requires |spans| == |bs| - 1
    requires forall k :: 0 <= k < |spans| ==> spans[k] == SpanAt(text, hs, bs[k], bs[k + 1])
    ensures SpansOver(text, hs, bs) == spans
  {
    var r := SpansOver(text, hs, bs);
    SpansOverAt(text, hs, bs);
    forall k | 0 <= k < |r| ensures r[k] == spans[k] {
      assert r[k] == SpanAt(text, hs, bs[k], bs[k + 1]);
    }
  }

  /**
   * computeRenderSpans, as a value: one whole-text span without ids when there is no
   * highlight, otherwise the spans between consecutive sorted distinct boundaries.
   */
  ghost function RenderSpans(text: string, hs: seq<Highlight>): seq<RenderSpan>
  {
    if |hs| == 0 then [RenderSpan(text, [], 0, |text|)]
    else
      SortedInRange(Boundaries(text, hs), |text|);
      SpansOver(text, hs, Sorted(Boundaries(text, hs)))
  }

  lemma SortedInRange(s: set<int>, n: int)
    requires forall x :: x in s ==> 0 <= x <= n
    ensures InRange(Sorted(s), n)
  {
    var r := Sorted(s);
    forall i | 0 <= i < |r| ensures 0 <= r[i] <= n {
      assert r[i] in r;
    }
  }

  /** The texts of the spans, concatenated in order. */
  function SpanTexts(spans: seq<RenderSpan>): string
  {
    if |spans| == 0 then [] else SpanTexts(spans[..|spans| - 1]) + spans[|spans| - 1].text
  }

  predicate IsSpanStart(spans: seq<RenderSpan>, x: int) {
    exists k :: 0 <= k < |spans| && spans[k].startOffset == x
  }

  /** The sorted boundary list starts at 0, ends at the text length and has one entry for empty text. */
  lemma SortedBoundariesShape(text: string, hs: seq<Highlight>)
    ensures var bs := Sorted(Boundaries(text, hs));
            |bs| >= 1 && bs[0] == 0 && bs[|bs| - 1] == |text| && InRange(bs, |text|) &&
            (|text| == 0 <==> |bs| == 1)
  {
    var B := Boundaries(text, hs);
    var bs := Sorted(B);
    assert 0 in bs;
    var i :| 0 <= i < |bs| && bs[i] == 0;
    assert bs[0] in B;
    assert bs[0] <= bs[i];
    assert |text| in bs;
    var j :| 0 <= j < |bs| && bs[j] == |text|;
    assert bs[|bs| - 1] in B;
    assert bs[j] <= bs[|bs| - 1];
  }

  lemma SliceConcat(s: string, a: int, m: int, b: int)
    requires 0 <= a <= m <= b <= |s|
    ensures s[a..m] + s[m..b] == s[a..b]
  {
  }

  /** The texts of the spans over a boundary list concatenate to the text between its ends. */
  lemma {:induction false} SpansOverTexts(text: string, hs: seq<Highlight>, bs: seq<int>)
    requires StrictlyIncreasing(bs) && InRange(bs, |text|) && |bs| >= 1
    ensures SpanTexts(SpansOver(text, hs, bs)) == text[bs[0]..bs[|bs| - 1]]
    decreases |bs|
  {
    var r := SpansOver(text, hs, bs);
    if |bs| >= 2 {
      var init := bs[..|bs| - 1];
      PrefixIncreasing(bs, |text|);
      SpansOverTexts(text, hs, init);
      var t := SpansOver(text, hs, init);
      assert r[..|r| - 1] == t;
      assert SpanTexts(r) == SpanTexts(t) + text[bs[|bs| - 2]..bs[|bs| - 1]];
      SliceConcat(text, bs[0], bs[|bs| - 2], bs[|bs| - 1]);
    }
  }

  /** A boundary list that runs from 0 to the text length. */
  predicate SpanningBoundaries(bs: seq<int>, n: nat) {
    StrictlyIncreasing(bs) && InRange(bs, n) && |bs| >= 1 && bs[0] == 0 && bs[|bs| - 1] == n
  }

  /** The spans cover the text once, in order and without gaps, each non-empty and carrying its own slice. */
  predicate Partitions(spans: seq<RenderSpan>, text: string) {
    && (|text| > 0 ==> |spans| > 0 && spans[0].startOffset == 0 && spans[|spans| - 1].endOffset == |text|)
    && (forall k :: 0 <= k < |spans| - 1 ==> spans[k].endOffset == spans[k + 1].startOffset)
    && (forall k :: 0 <= k < |spans| ==>
          0 <= spans[k].startOffset < spans[k].endOffset <= |text| &&
          spans[k].text == text[spans[k].startOffset..spans[k].endOffset])
    && SpanTexts(spans) == text
  }

  /** The span starts, together with the text length, are exactly the offsets of `B`. */
  ghost predicate StartsAreBoundaries(spans: seq<RenderSpan>, B: set<int>, n: int) {
    forall x :: x in B <==> x == n || IsSpanStart(spans, x)
  }

  /** No offset of `B` falls strictly inside a span. */
  predicate NoInnerBoundary(spans: seq<RenderSpan>, B: set<int>) {
    forall k, x :: 0 <= k < |spans| && x in B ==> !(spans[k].startOffset < x < spans[k].endOffset)
  }

  /** Each span lists, in input order, the ids of the highlights whose raw offsets contain it. */
  predicate CoveredBy(spans: seq<RenderSpan>, hs: seq<Highlight>) {
    forall k :: 0 <= k < |spans| ==> spans[k].highlightIds == Covering(hs, spans[k].startOffset, spans[k].endOffset)
  }

  lemma SpansOverPartition(text: string, hs: seq<Highlight>, bs: seq<int>)
    requires SpanningBoundaries(bs, |text|)
    ensures Partitions(SpansOver(text, hs, bs), text)
  {
    var spans := SpansOver(text, hs, bs);
    SpansOverTexts(text, hs, bs);
    SpansOverAt(text, hs, bs);
    assert text[0..|text|] == text;
    forall k | 0 <= k < |spans|
      ensures 0 <= spans[k].startOffset < spans[k].endOffset <= |text|
      ensures spans[k].text == text[spans[k].startOffset..spans[k].endOffset]
    {
      assert spans[k].startOffset == bs[k] && spans[k].endOffset == bs[k + 1];
    }
    if |text| > 0 {
      assert |bs| > 1;
    }
  }

  /** RenderSpans with at least one highlight is SpansOver the sorted boundaries, which span the text. */
  lemma RenderSpansUnfold(text: string, hs: seq<Highlight>)
    requires |hs| > 0
    ensures SpanningBoundaries(Sorted(Boundaries(text, hs)), |text|)
    ensures RenderSpans(text, hs) == SpansOver(text, hs, Sorted(Boundaries(text, hs)))
  {
    SortedBoundariesShape(text, hs);
  }

  /**
   * Partition: with at least one highlight the spans cover the text exactly once, in
   * order, each non-empty and carrying its own slice; empty text yields no span.
   */
  lemma RenderSpansPartition(text: string, hs: seq<Highlight>)
    requires |hs| > 0
    ensures var spans := RenderSpans(text, hs);
            (spans == [] <==> |text| == 0) && Partitions(spans, text)
  {
    var bs := Sorted(Boundaries(text, hs));
    RenderSpansUnfold(text, hs);
    SortedBoundariesShape(text, hs);
    SpansOverPartition(text, hs, bs);
  }

  lemma SpansOverStarts(text: string, hs: seq<Highlight>, bs: seq<int>, B: set<int>)
    requires SpanningBoundaries(bs, |text|)
    requires forall x :: x in bs <==> x in B
    ensures StartsAreBoundaries(SpansOver(text, hs, bs), B, |text|)
  {
    var spans := SpansOver(text, hs, bs);
    SpansOverAt(text, hs, bs);
    forall x ensures x in B <==> x == |text| || IsSpanStart(spans, x) {
      if x in B && x != |text| {
        var i :| 0 <= i < |bs| && bs[i] == x;
        assert i < |bs| - 1;
        assert spans[i].startOffset == x;
      }
      if IsSpanStart(spans, x) {
        var k :| 0 <= k < |spans| && spans[k].startOffset == x;
        assert bs[k] in bs;
      }
    }
  }

  lemma SpansOverNoInnerBoundary(text: string, hs: seq<Highlight>, bs: seq<int>, B: set<int>)
    requires SpanningBoundaries(bs, |text|)
    requires forall x :: x in B ==> x in bs
    ensures NoInnerBoundary(SpansOver(text, hs, bs), B)
  {
    var spans := SpansOver(text, hs, bs);
    SpansOverAt(text, hs, bs);
    forall k, x | 0 <= k < |spans| && x in B ensures !(spans[k].startOffset < x < spans[k].endOffset) {
      BetweenNeighbours(bs, k, x);
    }
  }

  /** No element of a strictly increasing sequence lies strictly between two neighbours. */
  lemma BetweenNeighbours(bs: seq<int>, k: nat, x: int)
    requires StrictlyIncreasing(bs) && k + 1 < |bs| && x in bs
    ensures x <= bs[k] || bs[k + 1] <= x
  {
    var i :| 0 <= i < |bs| && bs[i] == x;
    if i > k + 1 {
      assert bs[k + 1] < bs[i];
    } else if i < k {
      assert bs[i] < bs[k];
    }
  }

  lemma SpansOverCoverage(text: string, hs: seq<Highlight>, bs: seq<int>)
    requires StrictlyIncreasing(bs) && InRange(bs, |text|)
    ensures CoveredBy(SpansOver(text, hs, bs), hs)
  {
    SpansOverAt(text, hs, bs);
  }

  /**
   * Boundaries: the span starts together with the text length are exactly the
   * boundary set, so every clamped highlight offset is a span boundary; and no
   * boundary falls strictly inside a span.
   */
  lemma RenderSpansBoundaries(text: string, hs: seq<Highlight>)
    requires |hs| > 0
    ensures var spans := RenderSpans(text, hs);
            StartsAreBoundaries(spans, Boundaries(text, hs), |text|) && NoInnerBoundary(spans, Boundaries(text, hs))
  {
    var B := Boundaries(text, hs);
    var bs := Sorted(B);
    RenderSpansUnfold(text, hs);
    SpansOverStarts(text, hs, bs, B);
    SpansOverNoInnerBoundary(text, hs, bs, B);
  }

  /** Every clamped start and end offset of a highlight is where some span starts, or is the text's end. */
  lemma HighlightEndsAreBoundaries(text: string, hs: seq<Highlight>, j: nat)
    requires j < |hs|
    ensures var spans := RenderSpans(text, hs);
            && (Clamp(hs[j].startOffset, |text|) == |text| || IsSpanStart(spans, Clamp(hs[j].startOffset, |text|)))
            && (Clamp(hs[j].endOffset, |text|) == |text| || IsSpanStart(spans, Clamp(hs[j].endOffset, |text|)))
  {
    RenderSpansBoundaries(text, hs);
    ClampedOffsetsMembers(hs, |text|);
    var B := Boundaries(text, hs);
    assert Clamp(hs[j].startOffset, |text|) in B;
    assert Clamp(hs[j].endOffset, |text|) in B;
  }

  /**
   * Coverage: a span lists a highlight's id iff that highlight's raw offsets contain
   * the span; an inverted highlight (start after end) contains no span.
   */
  lemma RenderSpansCoverage(text: string, hs: seq<Highlight>)
    requires |hs| > 0
    ensures var spans := RenderSpans(text, hs);
            && CoveredBy(spans, hs)
            && (forall k, id :: 0 <= k < |spans| ==>
                  (id in spans[k].highlightIds <==>
                   exists j :: 0 <= j < |hs| && hs[j].id == id && Covers(hs[j], spans[k].startOffset, spans[k].endOffset)))
            && (forall k, j :: 0 <= k < |spans| && 0 <= j < |hs| && hs[j].startOffset > hs[j].endOffset ==>
                  !Covers(hs[j], spans[k].startOffset, spans[k].endOffset))
  {
    var spans := RenderSpans(text, hs);
    RenderSpansUnfold(text, hs);
    SpansOverCoverage(text, hs, Sorted(Boundaries(text, hs)));
    RenderSpansPartition(text, hs);
    forall k, id | 0 <= k < |spans|
      ensures id in spans[k].highlightIds <==>
              exists j :: 0 <= j < |hs| && hs[j].id == id && Covers(hs[j], spans[k].startOffset, spans[k].endOffset)
    {
      assert spans[k].highlightIds == Covering(hs, spans[k].startOffset, spans[k].endOffset);
    }
    forall k, j | 0 <= k < |spans| && 0 <= j < |hs| && hs[j].startOffset > hs[j].endOffset
      ensures !Covers(hs[j], spans[k].startOffset, spans[k].endOffset)
    {
      assert spans[k].startOffset < spans[k].endOffset;
    }
  }

  /**
   * The colour a caller paints a span with is that of its first covering highlight
   * in input order, provided highlight ids are distinct.
   */
  lemma RenderedSpanColor(text: string, hs: seq<Highlight>, k: nat)
    requires |hs| > 0
    requires forall i, j :: 0 <= i < j < |hs| ==> hs[i].id != hs[j].id
    requires k < |RenderSpans(text, hs)|
    ensures var s := RenderSpans(text, hs)[k];
            s.highlightIds != [] ==>
              exists j :: 0 <= j < |hs| && Covers(hs[j], s.startOffset, s.endOffset) &&
                          (forall i :: 0 <= i < j ==> !Covers(hs[i], s.startOffset, s.endOffset)) &&
                          GetSpanColor(s.highlightIds, hs) == GetHighlightCssColor(hs[j])
  {
    var spans := RenderSpans(text, hs);
    var s := spans[k];
    RenderSpansUnfold(text, hs);
    SpansOverCoverage(text, hs, Sorted(Boundaries(text, hs)));
    assert s.highlightIds == Covering(hs, s.startOffset, s.endOffset);
    if s.highlightIds != [] {
      CoveringFirst(hs, s.startOffset, s.endOffset);
      var j :| 0 <= j < |hs| && Covers(hs[j], s.startOffset, s.endOffset) &&
               hs[j].id == s.highlightIds[0] &&
               forall i :: 0 <= i < j ==> !Covers(hs[i], s.startOffset, s.endOffset);
      SpanColorOfFirst(s.highlightIds, hs, j);
    }
  }

  /** With distinct ids, the colour of a span is that of the highlight holding its first id. */
  lemma SpanColorOfFirst(ids: seq<string>, hs: seq<Highlight>, j: nat)
    requires forall i, j :: 0 <= i < j < |hs| ==> hs[i].id != hs[j].id
    requires ids != [] && j < |hs| && hs[j].id == ids[0]
    ensures GetSpanColor(ids, hs) == GetHighlightCssColor(hs[j])
  {
    forall i | 0 <= i < j ensures hs[i].id != ids[0] { }
  }

  // ---------------------------------------------------------------------------
  // The resolver as the source computes it
  // ---------------------------------------------------------------------------

  /** Sort a finite set of offsets ascending by repeatedly taking its least element. */
  method SortBoundaries(b: set<int>) returns (sorted: seq<int>)
    ensures sorted == Sorted(b)
  {
    sorted := [];
    var rest := b;
    while rest != {}
      invariant StrictlyIncreasing(sorted)
      invariant rest <= b
      invariant forall x :: x in sorted <==> x in b && x !in rest
      invariant forall i, y :: 0 <= i < |sorted| && y in rest ==> sorted[i] < y
      decreases |rest|
    {
      MinExists(rest);
      var m :| m in rest && forall y :: y in rest ==> m <= y;
      sorted := sorted + [m];
      rest := rest - {m};
    }
    SortedUnique(sorted, Sorted(b));
  }

  /** computeRenderSpans. */
  method ComputeRenderSpans(text: string, highlights: seq<Highlight>) returns (spans: seq<RenderSpan>)
    ensures |highlights| == 0 ==> spans == [RenderSpan(text, [], 0, |text|)]
    ensures spans == RenderSpans(text, highlights)
  {
    if |highlights| == 0 {
      return [RenderSpan(text, [], 0, |text|)];
    }

    var boundaries := CollectBoundaries(text, highlights);
    var sorted := SortBoundaries(boundaries);
    SortedBoundariesShape(text, highlights);
    spans := SpansBetween(text, highlights, sorted);
  }

  /** The first phase of computeRenderSpans: 0, the text length and each highlight's clamped offsets. */
  method CollectBoundaries(text: string, highlights: seq<Highlight>) returns (boundaries: set<int>)
    ensures boundaries == Boundaries(text, highlights)
  {
    boundaries := {0, |text|};
    for i := 0 to |highlights|
      invariant boundaries == {0, |text|} + ClampedOffsets(highlights[..i], |text|)
    {
      var h := highlights[i];
      var start := Clamp(h.startOffset, |text|);
      var end := Clamp(h.endOffset, |text|);
      boundaries := boundaries + {start};
      boundaries := boundaries + {end};
      assert highlights[..i + 1][..i] == highlights[..i];
    }
    assert highlights[..|highlights|] == highlights;
  }

  /**
   * The last phase of computeRenderSpans: one span per pair of consecutive boundaries.
   * A pair of equal boundaries is skipped; the elements of a set never are equal.
   */
  method SpansBetween(text: string, highlights: seq<Highlight>, sorted: seq<int>) returns (spans: seq<RenderSpan>)
    requires StrictlyIncreasing(sorted) && InRange(sorted, |text|)
    ensures spans == SpansOver(text, highlights, sorted)
  {
    spans := [];
    if |sorted| == 0 {
      return;
    }
    for i := 0 to |sorted| - 1
      invariant |spans| == i
      invariant forall k :: 0 <= k < i ==> spans[k] == SpanAt(text, highlights, sorted[k], sorted[k + 1])
    {
      var start := sorted[i];
      var end := sorted[i + 1];
      if start == end {
        continue;
      }
      var covering := Covering(highlights, start, end);
      spans := spans + [RenderSpan(text[start..end], covering, start, end)];
    }
    SpansOverFromElements(text, highlights, sorted, spans);
  }

  // ---------------------------------------------------------------------------
  // Worked examples
  // ---------------------------------------------------------------------------

  function Plain(id: string, s: int, e: int): Highlight {
    Highlight(id, "section", s, e, Some("media"), None, None, "", None)
  }

  lemma CoveringSingle(h: Highlight, x: int, y: int)
    ensures Covering([h], x, y) == if Covers(h, x, y) then [h.id] else []
  {
    assert [h][..0] == [];
  }

  /** Increasing neighbours make a strictly increasing sequence. */
  lemma {:induction false} IncreasingFromAdjacent(s: seq<int>)
    requires forall i :: 0 <= i < |s| - 1 ==> s[i] < s[i + 1]
    ensures StrictlyIncreasing(s)
    decreases |s|
  {
    if |s| > 1 {
      var t := s[1..];
      forall i | 0 <= i < |t| - 1 ensures t[i] < t[i + 1] {
        assert t[i] == s[i + 1] && t[i + 1] == s[i + 2];
      }
      IncreasingFromAdjacent(t);
      assert s == [s[0]] + t;
      IncreasingCons(s[0], t);
    }
  }

  lemma IncreasingCons(x: int, s: seq<int>)
    requires StrictlyIncreasing(s) && |s| > 0 && x < s[0]
    ensures StrictlyIncreasing([x] + s)
  {
    var t := [x] + s;
    forall i, j | 0 <= i < j < |t| ensures t[i] < t[j] {
      if i == 0 {
        assert t[j] == s[j - 1];
        if j > 1 { assert s[0] < s[j - 1]; }
      } else {
        assert t[i] == s[i - 1] && t[j] == s[j - 1];
      }
    }
  }

  /** The spans over three or four concrete boundaries. */
  lemma SpansOverThree(text: string, hs: seq<Highlight>, x: int, y: int, z: int)
    requires 0 <= x < y < z <= |text|
    ensures StrictlyIncreasing([x, y, z]) && InRange([x, y, z], |text|)
    ensures SpansOver(text, hs, [x, y, z]) == [SpanAt(text, hs, x, y), SpanAt(text, hs, y, z)]
  {
    IncreasingFromAdjacent([x, y, z]);
    SpansOverFromElements(text, hs, [x, y, z], [SpanAt(text, hs, x, y), SpanAt(text, hs, y, z)]);
  }

  lemma SpansOverFour(text: string, hs: seq<Highlight>, w: int, x: int, y: int, z: int)
    requires 0 <= w < x < y < z <= |text|
    ensures StrictlyIncreasing([w, x, y, z]) && InRange([w, x, y, z], |text|)
    ensures SpansOver(text, hs, [w, x, y, z]) ==
            [SpanAt(text, hs, w, x), SpanAt(text, hs, x, y), SpanAt(text, hs, y, z)]
  {
    IncreasingFromAdjacent([w, x, y, z]);
    SpansOverFromElements(text, hs, [w, x, y, z],
                          [SpanAt(text, hs, w, x), SpanAt(text, hs, x, y), SpanAt(text, hs, y, z)]);
  }

  /** The boundaries of one highlight [a, b) inside a text of length n, with 0 and n when they differ from a and b. */
  function SingleBoundaryList(a: int, b: int, n: int): seq<int>
  {
    (if a > 0 then [0] else []) + [a, b] + (if b < n then [n] else [])
  }

  /** An unhighlighted prefix when the highlight starts after 0, the highlight, and an unhighlighted suffix when it ends before the text does. */
  function SingleSpanList(text: string, h: Highlight): seq<RenderSpan>
    requires 0 <= h.startOffset < h.endOffset <= |text|
  {
    var a, b, n := h.startOffset, h.endOffset, |text|;
    (if a > 0 then [RenderSpan(text[..a], [], 0, a)] else []) +
    [RenderSpan(text[a..b], [h.id], a, b)] +
    (if b < n then [RenderSpan(text[b..], [], b, n)] else [])
  }

  /** The spans over the boundaries of one highlight inside the text. */
  ghost predicate SingleSpansHold(text: string, h: Highlight)
    requires 0 <= h.startOffset < h.endOffset <= |text|
  {
    var bs := SingleBoundaryList(h.startOffset, h.endOffset, |text|);
    StrictlyIncreasing(bs) && InRange(bs, |text|) && SpansOver(text, [h], bs) == SingleSpanList(text, h)
  }

  /** A highlight strictly inside the text: a plain prefix, the highlight, a plain suffix. */
  lemma SingleInterior(text: string, h: Highlight)
    requires 0 < h.startOffset < h.endOffset < |text|
    ensures SingleSpansHold(text, h)
  {
    var a, b, n := h.startOffset, h.endOffset, |text|;
    var bs := SingleBoundaryList(a, b, n);
    assert bs == [0, a, b, n];
    CoveringSingle(h, 0, a);
    CoveringSingle(h, a, b);
    CoveringSingle(h, b, n);
    assert text[..a] == text[0..a] && text[b..] == text[b..n];
    SpansOverFour(text, [h], 0, a, b, n);
    assert SpansOver(text, [h], bs) == SpansOver(text, [h], [0, a, b, n]);
    assert SingleSpanList(text, h) ==
           [RenderSpan(text[..a], [], 0, a), RenderSpan(text[a..b], [h.id], a, b), RenderSpan(text[b..], [], b, n)];
  }

  /** A highlight that reaches the end of the text: a plain prefix and the highlight. */
  lemma SingleAtEnd(text: string, h: Highlight)
    requires 0 < h.startOffset < h.endOffset == |text|
    ensures SingleSpansHold(text, h)
  {
    var a, b := h.startOffset, h.endOffset;
    var bs := SingleBoundaryList(a, b, b);
    assert bs == [0, a, b];
    CoveringSingle(h, 0, a);
    CoveringSingle(h, a, b);
    assert text[..a] == text[0..a];
    SpansOverThree(text, [h], 0, a, b);
    assert SpansOver(text, [h], bs) == SpansOver(text, [h], [0, a, b]);
    assert SingleSpanList(text, h) == [RenderSpan(text[..a], [], 0, a), RenderSpan(text[a..b], [h.id], a, b)];
  }

  /** A highlight that starts the text: the highlight and a plain suffix. */
  lemma SingleAtStart(text: string, h: Highlight)
    requires 0 == h.startOffset < h.endOffset < |text|
    ensures SingleSpansHold(text, h)
  {
    var a, b, n := h.startOffset, h.endOffset, |text|;
    var bs := SingleBoundaryList(a, b, n);
    assert bs == [a, b, n];
    CoveringSingle(h, a, b);
    CoveringSingle(h, b, n);
    assert text[b..] == text[b..n];
    SpansOverThree(text, [h], a, b, n);
    assert SpansOver(text, [h], bs) == SpansOver(text, [h], [a, b, n]);
    assert SingleSpanList(text, h) == [RenderSpan(text[a..b], [h.id], a, b), RenderSpan(text[b..], [], b, n)];
  }

  /** A highlight over the whole text: a single highlighted span. */
  lemma SingleWhole(text: string, h: Highlight)
    requires 0 == h.startOffset < h.endOffset == |text|
    ensures SingleSpansHold(text, h)
  {
    var a, b := h.startOffset, h.endOffset;
    var bs := SingleBoundaryList(a, b, b);
    assert bs == [a, b];
    CoveringSingle(h, a, b);
    IncreasingFromAdjacent([a, b]);
    SpansOverFromElements(text, [h], [a, b], [SpanAt(text, [h], a, b)]);
    assert SpansOver(text, [h], bs) == SpansOver(text, [h], [a, b]);
    assert SingleSpanList(text, h) == [RenderSpan(text[a..b], [h.id], a, b)];
  }

  /** The spans over the boundaries of one highlight inside the text. */
  lemma SingleHighlightSpans(text: string, h: Highlight)
    requires 0 <= h.startOffset < h.endOffset <= |text|
    ensures var bs := SingleBoundaryList(h.startOffset, h.endOffset, |text|);
            StrictlyIncreasing(bs) && InRange(bs, |text|) && SpansOver(text, [h], bs) == SingleSpanList(text, h)
  {
    var a, b, n := h.startOffset, h.endOffset, |text|;
    if a > 0 && b < n {
      SingleInterior(text, h);
    } else if a > 0 {
      SingleAtEnd(text, h);
    } else if b < n {
      SingleAtStart(text, h);
    } else {
      SingleWhole(text, h);
    }
  }

  /** The listed boundaries of one highlight are exactly 0, a, b and n. */
  lemma SingleBoundaryMembers(a: int, b: int, n: int)
    requires 0 <= a < b <= n
    ensures forall x :: x in SingleBoundaryList(a, b, n) <==> x in {0, n, a, b}
  {
    var bs := SingleBoundaryList(a, b, n);
    if a > 0 && b < n { assert bs == [0, a, b, n]; }
    else if a > 0 { assert bs == [0, a, b]; }
    else if b < n { assert bs == [a, b, n]; }
    else { assert bs == [a, b]; }
  }

  /** The sorted boundaries of one highlight inside the text. */
  lemma SingleHighlightBoundaries(text: string, h: Highlight)
    requires 0 <= h.startOffset < h.endOffset <= |text|
    ensures Sorted(Boundaries(text, [h])) == SingleBoundaryList(h.startOffset, h.endOffset, |text|)
  {
    var a, b, n := h.startOffset, h.endOffset, |text|;
    var B := Boundaries(text, [h]);
    assert [h][..0] == [];
    assert ClampedOffsets([h], n) == Ends(h, n) == {a, b};
    assert B == {0, n, a, b};
    SingleHighlightSpans(text, h);
    SingleBoundaryMembers(a, b, n);
    SortedUnique(Sorted(B), SingleBoundaryList(a, b, n));
  }

  /** One highlight inside the text gives an unhighlighted prefix, the highlight, and a suffix. */
  lemma SingleHighlight(text: string, h: Highlight)
    requires 0 <= h.startOffset < h.endOffset <= |text|
    ensures RenderSpans(text, [h]) == SingleSpanList(text, h)
  {
    RenderSpansUnfold(text, [h]);
    SingleHighlightBoundaries(text, h);
    SingleHighlightSpans(text, h);
  }

  lemma StackingBoundaries(text: string, hs: seq<Highlight>)
    requires |text| == 25 && hs == [Plain("A", 4, 15), Plain("B", 10, 24)]
    ensures Sorted(Boundaries(text, hs)) == [0, 4, 10, 15, 24, 25]
  {
    assert hs[..1] == [hs[0]] && hs[..1][..0] == [];
    assert ClampedOffsets(hs[..1], 25) == Ends(hs[0], 25) == {4, 15};
    assert ClampedOffsets(hs, 25) == {4, 15} + Ends(hs[1], 25) == {4, 15, 10, 24};
    var B := Boundaries(text, hs);
    assert B == {0, 4, 10, 15, 24, 25};
    var bs := [0, 4, 10, 15, 24, 25];
    assert forall x :: x in bs <==> x in B;
    IncreasingFromAdjacent(bs);
    SortedUnique(Sorted(B), bs);
  }

  lemma StackingCovering(hs: seq<Highlight>)
    requires hs == [Plain("A", 4, 15), Plain("B", 10, 24)]
    ensures Covering(hs, 0, 4) == [] && Covering(hs, 4, 10) == ["A"] && Covering(hs, 10, 15) == ["A", "B"]
    ensures Covering(hs, 15, 24) == ["B"] && Covering(hs, 24, 25) == []
  {
    assert hs[..1] == [hs[0]] && hs[..1][..0] == [];
  }

  lemma StackingSpans(text: string, hs: seq<Highlight>)
    requires |text| == 25 && hs == [Plain("A", 4, 15), Plain("B", 10, 24)]
    ensures StrictlyIncreasing([0, 4, 10, 15, 24, 25]) && InRange([0, 4, 10, 15, 24, 25], 25)
    ensures SpansOver(text, hs, [0, 4, 10, 15, 24, 25]) ==
            [ RenderSpan(text[0..4], [], 0, 4),
              RenderSpan(text[4..10], ["A"], 4, 10),
              RenderSpan(text[10..15], ["A", "B"], 10, 15),
              RenderSpan(text[15..24], ["B"], 15, 24),
              RenderSpan(text[24..25], [], 24, 25) ]
  {
    StackingCovering(hs);
    var bs := [0, 4, 10, 15, 24, 25];
    IncreasingFromAdjacent(bs);
    var spans := [SpanAt(text, hs, 0, 4), SpanAt(text, hs, 4, 10), SpanAt(text, hs, 10, 15),
                  SpanAt(text, hs, 15, 24), SpanAt(text, hs, 24, 25)];
    SpansOverFromElements(text, hs, bs, spans);
  }

  /**
   * The stacking example on a 25-character text such as "The quick brown fox jumps",
   * with A = [4, 15) and B = [10, 24): A alone, then A and B in input order, then B alone.
   */
  lemma StackingExample(text: string)
    requires |text| == 25
    ensures RenderSpans(text, [Plain("A", 4, 15), Plain("B", 10, 24)]) ==
            [ RenderSpan(text[0..4], [], 0, 4),
              RenderSpan(text[4..10], ["A"], 4, 10),
              RenderSpan(text[10..15], ["A", "B"], 10, 15),
              RenderSpan(text[15..24], ["B"], 15, 24),
              RenderSpan(text[24..25], [], 24, 25) ]
  {
    var hs := [Plain("A", 4, 15), Plain("B", 10, 24)];
    StackingBoundaries(text, hs);
    StackingSpans(text, hs);
  }

  /** "Hello world" with one media highlight on [0, 5). */
  lemma HelloWorldExample()
    ensures RenderSpans("Hello world", [Plain("id1", 0, 5)]) ==
            [RenderSpan("Hello", ["id1"], 0, 5), RenderSpan(" world", [], 5, 11)]
  {
    var text := "Hello world";
    var h := Plain("id1", 0, 5);
    SingleHighlight(text, h);
    assert text[0..5] == "Hello" && text[5..] == " world";
    assert SingleSpanList(text, h) == [RenderSpan("Hello", ["id1"], 0, 5), RenderSpan(" world", [], 5, 11)];
  }
}
