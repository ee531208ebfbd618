/**
 * The selection-to-offset mapper of src/hooks/useTextSelection.ts. The browser
 * selection and the DOM are abstracted into a `MouseUp` record: which section
 * elements enclose the two ends of the range, the section elements of the
 * container in document order, and the plain-text lengths the handler measures
 * with DOM ranges. From these the handler keeps the current selection, clears
 * it, or sets one half-open range per touched section.
 */
module TextSelection {
  import opened Wrappers
  import opened Records
  import opened Strings

  datatype SectionRange = SectionRange(sectionId: string, startOffset: int, endOffset: int)

  /** A selection: its ranges and the trimmed selected text (the bounding rectangle is not modelled). */
  datatype Selection = Selection(ranges: seq<SectionRange>, selectedText: string)

  /**
   * One `[data-section-id]` element. `key` stands for its identity in the DOM;
   * `textLength` is the length of its `[data-section-text]` child's text, None when
   * it has no such child; `offsetAtStart` and `offsetAtEnd` are the lengths of the
   * text from the start of that child to the range's start and end, None when the
   * DOM refuses the measuring range.
   */
  datatype SectionEl = SectionEl(
    key: nat,
    id: Option<string>,
    textLength: Option<nat>,
    offsetAtStart: Option<nat>,
    offsetAtEnd: Option<nat>)

  /** What the mouse-up handler reads from the window selection and the DOM. */
  datatype MouseUp = MouseUp(
    hasSelection: bool,
    isCollapsed: bool,
    rangeCount: nat,
    text: string,
    startSection: Option<SectionEl>,
    endSection: Option<SectionEl>,
    rawOffsets: Option<(nat, nat)>,
    hasContainer: bool,
    allSections: seq<SectionEl>)

  /** The handler's effect on the selection state: leave it, or set it (to a selection or to none). */
  datatype Update = Keep | Replace(next: Option<Selection>)

  datatype Offsets = Offsets(start: nat, end: nat)

  /**
   * domRangeToTextOffsets from the two measured lengths (None when the DOM
   * throws): nothing for an empty range, else the two lengths in order.
   */
  function DomRangeToTextOffsets(raw: Option<(nat, nat)>): (r: Option<Offsets>)
    ensures r.None? <==> raw.None? || raw.value.0 == raw.value.1
    ensures r.Some? ==> r.value.start < r.value.end
    ensures r.Some? ==> {r.value.start, r.value.end} == {raw.value.0, raw.value.1}
  {
    match raw
    case None => None
    case Some((start, end)) =>
      if start == end then None
      else Some(Offsets(if start < end then start else end, if start < end then end else start))
  }

  /** `allSections.indexOf(el)`: the first position of the element, or -1. */
  function IndexOfKey(sections: seq<SectionEl>, key: nat): (k: int)
    ensures -1 <= k < |sections|
    ensures k >= 0 ==> sections[k].key == key && forall j :: 0 <= j < k ==> sections[j].key != key
    ensures k == -1 <==> forall j :: 0 <= j < |sections| ==> sections[j].key != key
    decreases |sections|
  {
    if |sections| == 0 then -1
    else
      var k := IndexOfKey(sections[..|sections| - 1], key);
      if k >= 0 then k
      else if sections[|sections| - 1].key == key then |sections| - 1
      else -1
  }

  /**
   * The range one section of a multi-section selection contributes, if any:
   * nothing without an id, a text element or text; the first section from the
   * selection start to its end when the start lies before its end; the last
   * section from 0 to the selection end when that is positive; a middle section
   * whole.
   */
  function RangeAt(sections: seq<SectionEl>, i: nat, startIdx: nat, endIdx: nat): (r: Option<SectionRange>)
    requires i < |sections|
    ensures r.Some? ==> r.value.startOffset < r.value.endOffset
    ensures r.Some? ==> Truthy(sections[i].id) && r.value.sectionId == sections[i].id.value
  {
    var el := sections[i];
    if !Truthy(el.id) || el.textLength.None? || el.textLength.value == 0 then None
    else
      var len := el.textLength.value;
      if i == startIdx then
        if el.offsetAtStart.Some? && el.offsetAtStart.value < len then Some(SectionRange(el.id.value, el.offsetAtStart.value, len))
        else None
      else if i == endIdx then
        if el.offsetAtEnd.Some? && el.offsetAtEnd.value > 0 then Some(SectionRange(el.id.value, 0, el.offsetAtEnd.value))
        else None
      else Some(SectionRange(el.id.value, 0, len))
  }

  /** A section that can contribute: it has an id and a text element with some text. */
  predicate HasText(el: SectionEl) {
    Truthy(el.id) && el.textLength.Some? && el.textLength.value > 0
  }

  /**
   * The three rules of the loop body, each in both directions: a section without
   * text contributes nothing; the first section contributes `[start, len)` exactly
   * when its measured start is below its length; the last (when not also the
   * first) contributes `[0, end)` exactly when its measured end is positive; any
   * other section contributes `[0, len)`.
   */
  lemma RangeAtRules(sections: seq<SectionEl>, i: nat, startIdx: nat, endIdx: nat)
    requires i < |sections|
    ensures var el, r := sections[i], RangeAt(sections, i, startIdx, endIdx);
            && (!HasText(el) ==> r.None?)
            && (HasText(el) && i == startIdx ==>
                  (r.Some? <==> el.offsetAtStart.Some? && el.offsetAtStart.value < el.textLength.value)
                  && (r.Some? ==> r.value == SectionRange(el.id.value, el.offsetAtStart.value, el.textLength.value)))
            && (HasText(el) && i != startIdx && i == endIdx ==>
                  (r.Some? <==> el.offsetAtEnd.Some? && el.offsetAtEnd.value > 0)
                  && (r.Some? ==> r.value == SectionRange(el.id.value, 0, el.offsetAtEnd.value)))
            && (HasText(el) && i != startIdx && i != endIdx ==>
                  r == Some(SectionRange(el.id.value, 0, el.textLength.value)))
  {
  }

  function AsList(o: Option<SectionRange>): seq<SectionRange> {
    if o.Some? then [o.value] else []
  }

  /** The ranges of sections `startIdx` up to (not including) `hi`, in section order. */
  function Collected(sections: seq<SectionEl>, startIdx: nat, endIdx: nat, hi: nat): seq<SectionRange>
    requires hi <= |sections|
    decreases hi
  {
    if hi <= startIdx then [] else Collected(sections, startIdx, endIdx, hi - 1) + AsList(RangeAt(sections, hi - 1, startIdx, endIdx))
  }

  /** The sections that contributed to `Collected`, in the same order. */
  function Sources(sections: seq<SectionEl>, startIdx: nat, endIdx: nat, hi: nat): seq<nat>
    requires hi <= |sections|
    decreases hi
  {
    if hi <= startIdx then []
    else Sources(sections, startIdx, endIdx, hi - 1) + (if RangeAt(sections, hi - 1, startIdx, endIdx).Some? then [hi - 1] else [])
  }

  /**
   * The collected ranges come one per contributing section, in strictly
   * increasing section order, each from a section in `[startIdx, hi)` and each
   * the range that section contributes; so every range is non-empty and no
   * section contributes twice.
   */
  lemma {:induction false} CollectedInSectionOrder(sections: seq<SectionEl>, startIdx: nat, endIdx: nat, hi: nat)
    requires hi <= |sections|
    ensures var rs, src := Collected(sections, startIdx, endIdx, hi), Sources(sections, startIdx, endIdx, hi);
            && |src| == |rs|
            && (forall k :: 0 <= k < |src| ==> startIdx <= src[k] < hi)
            && (forall k, l :: 0 <= k < l < |src| ==> src[k] < src[l])
            && (forall k :: 0 <= k < |src| ==> RangeAt(sections, src[k], startIdx, endIdx) == Some(rs[k]))
            && (forall k :: 0 <= k < |rs| ==> rs[k].startOffset < rs[k].endOffset)
    decreases hi
  {
    if hi > startIdx {
      CollectedInSectionOrder(sections, startIdx, endIdx, hi - 1);
      var rs, src := Collected(sections, startIdx, endIdx, hi), Sources(sections, startIdx, endIdx, hi);
      var rs0, src0 := Collected(sections, startIdx, endIdx, hi - 1), Sources(sections, startIdx, endIdx, hi - 1);
      var r := RangeAt(sections, hi - 1, startIdx, endIdx);
      if r.Some? {
        assert rs == rs0 + [r.value] && src == src0 + [hi - 1];
        forall k | 0 <= k < |src| ensures RangeAt(sections, src[k], startIdx, endIdx) == Some(rs[k]) {
          if k < |src0| { assert src[k] == src0[k] && rs[k] == rs0[k]; }
        }
      } else {
        assert rs == rs0 && src == src0;
      }
    }
  }

  /** Conversely, every range a section in `[startIdx, hi)` contributes is collected. */
  lemma {:induction false} CollectedContains(sections: seq<SectionEl>, startIdx: nat, endIdx: nat, hi: nat, i: nat)
    requires hi <= |sections| && startIdx <= i < hi
    requires RangeAt(sections, i, startIdx, endIdx).Some?
    ensures RangeAt(sections, i, startIdx, endIdx).value in Collected(sections, startIdx, endIdx, hi)
    decreases hi
  {
    if i < hi - 1 {
      CollectedContains(sections, startIdx, endIdx, hi - 1, i);
    }
  }

  /** A section strictly between the two ends, with an id and some text, is selected whole. */
  lemma MiddleSectionWhole(sections: seq<SectionEl>, startIdx: nat, endIdx: nat, hi: nat, i: nat)
    requires hi <= |sections| && startIdx < i < endIdx && i < hi
    requires HasText(sections[i])
    ensures SectionRange(sections[i].id.value, 0, sections[i].textLength.value) in Collected(sections, startIdx, endIdx, hi)
  {
    RangeAtRules(sections, i, startIdx, endIdx);
    CollectedContains(sections, startIdx, endIdx, hi, i);
  }

  /** The ranges of a multi-section selection, or none when no section contributed. */
  function MultiSection(sections: seq<SectionEl>, startIdx: nat, endIdx: nat): Option<seq<SectionRange>>
    requires startIdx < |sections| && endIdx < |sections|
  {
    var rs := Collected(sections, startIdx, endIdx, if endIdx + 1 <= startIdx then startIdx else endIdx + 1);
    if |rs| == 0 then None else Some(rs)
  }

  /** What handleMouseUp does with one mouse-up. */
  function Decide(m: MouseUp): Update {
    var selectedText := Trim(m.text);
    if !m.hasSelection || m.isCollapsed || m.rangeCount == 0 then Keep
    else if selectedText == [] then Keep
    else if m.startSection.None? || m.endSection.None? then Replace(None)
    else
      var startEl, endEl := m.startSection.value, m.endSection.value;
      if startEl.key == endEl.key then
        var offsets := DomRangeToTextOffsets(m.rawOffsets);
        if !Truthy(startEl.id) || offsets.None? then Replace(None)
        else Replace(Some(Selection([SectionRange(startEl.id.value, offsets.value.start, offsets.value.end)], selectedText)))
      else if !m.hasContainer then Replace(None)
      else
        var startIdx, endIdx := IndexOfKey(m.allSections, startEl.key), IndexOfKey(m.allSections, endEl.key);
        if startIdx == -1 || endIdx == -1 then Replace(None)
        else
          var rs := MultiSection(m.allSections, startIdx, endIdx);
          if rs.None? then Replace(None) else Replace(Some(Selection(rs.value, selectedText)))
  }

  function Apply(current: Option<Selection>, u: Update): Option<Selection> {
    if u.Keep? then current else u.next
  }

  /**
   * A collapsed or empty selection, or one whose text trims to nothing, leaves
   * the state as it is; every other mouse-up replaces it.
   */
  lemma KeepExactlyWhenNothingSelected(m: MouseUp)
    ensures Decide(m).Keep? <==> !m.hasSelection || m.isCollapsed || m.rangeCount == 0 || AllWhitespace(m.text)
  {
  }

  /** An end of the range outside every section clears the selection. */
  lemma OutsideSectionsClears(m: MouseUp)
    requires m.hasSelection && !m.isCollapsed && m.rangeCount > 0 && !AllWhitespace(m.text)
    requires m.startSection.None? || m.endSection.None?
    ensures Decide(m) == Replace(None)
  {
  }

  /**
   * Within one section the selection is one range of that section, from the
   * smaller to the larger measured offset; a section without an id, or an empty
   * or unmeasurable range, clears the selection.
   */
  lemma SingleSectionOneRange(m: MouseUp)
    requires m.hasSelection && !m.isCollapsed && m.rangeCount > 0 && !AllWhitespace(m.text)
    requires m.startSection.Some? && m.endSection.Some? && m.startSection.value.key == m.endSection.value.key
    ensures var el := m.startSection.value;
            && (Decide(m) == Replace(None) <==> !Truthy(el.id) || m.rawOffsets.None? || m.rawOffsets.value.0 == m.rawOffsets.value.1)
            && (Decide(m).next.Some? ==>
                  var rs := Decide(m).next.value.ranges;
                  |rs| == 1 && rs[0].sectionId == el.id.value && rs[0].startOffset < rs[0].endOffset
                  && {rs[0].startOffset, rs[0].endOffset} == {m.rawOffsets.value.0, m.rawOffsets.value.1})
  {
  }

  /**
   * Across sections: no container, or an end whose section is not among the
   * container's sections, clears the selection; so does a range whose start
   * section comes after its end section in document order. A selection that is
   * set holds the ranges collected over sections `startIdx..endIdx`, with the
   * start section strictly before the end section.
   */
  lemma MultiSectionOutcome(m: MouseUp)
    requires m.hasSelection && !m.isCollapsed && m.rangeCount > 0 && !AllWhitespace(m.text)
    requires m.startSection.Some? && m.endSection.Some? && m.startSection.value.key != m.endSection.value.key
    ensures var startIdx := IndexOfKey(m.allSections, m.startSection.value.key);
            var endIdx := IndexOfKey(m.allSections, m.endSection.value.key);
            && (!m.hasContainer || startIdx == -1 || endIdx == -1 ==> Decide(m) == Replace(None))
            && (m.hasContainer && 0 <= endIdx < startIdx ==> Decide(m) == Replace(None))
            && (Decide(m).next.Some? ==>
                  && m.hasContainer && 0 <= startIdx < endIdx
                  && Decide(m).next.value.ranges == Collected(m.allSections, startIdx, endIdx, endIdx + 1))
  {
    var startIdx := IndexOfKey(m.allSections, m.startSection.value.key);
    var endIdx := IndexOfKey(m.allSections, m.endSection.value.key);
    if m.hasContainer && startIdx >= 0 && endIdx >= 0 {
      var rs := MultiSection(m.allSections, startIdx, endIdx);
      assert Decide(m) == (if rs.None? then Replace(None) else Replace(Some(Selection(rs.value, Trim(m.text)))));
      if endIdx < startIdx {
        assert rs.None?;
      }
    }
  }

  /**
   * Every selection the handler sets is non-empty, its text is the trimmed
   * selected text, and every range in it is non-empty.
   */
  lemma SetSelectionsWellFormed(m: MouseUp)
    ensures Decide(m).Replace? && Decide(m).next.Some? ==>
            var sel := Decide(m).next.value;
            && |sel.ranges| >= 1
            && sel.selectedText == Trim(m.text) && sel.selectedText != []
            && forall k :: 0 <= k < |sel.ranges| ==> sel.ranges[k].startOffset < sel.ranges[k].endOffset
  {
    if Decide(m).Replace? && Decide(m).next.Some? && m.startSection.value.key != m.endSection.value.key {
      var startIdx, endIdx := IndexOfKey(m.allSections, m.startSection.value.key), IndexOfKey(m.allSections, m.endSection.value.key);
      CollectedInSectionOrder(m.allSections, startIdx, endIdx, if endIdx + 1 <= startIdx then startIdx else endIdx + 1);
    }
  }

  /** The mouse-up handler's state: the current selection, or none. */
  class SelectionTracker {
    var selection: Option<Selection>

    constructor ()
      ensures selection.None?
    {
      selection := None;
    }

    /** The loop of handleMouseUp over sections `startIdx..endIdx`. */
    static method CollectRanges(sections: seq<SectionEl>, startIdx: nat, endIdx: nat) returns (ranges: seq<SectionRange>)
      requires startIdx < |sections| && endIdx < |sections|
      ensures ranges == Collected(sections, startIdx, endIdx, if endIdx + 1 <= startIdx then startIdx else endIdx + 1)
    {
      ranges := [];
      var i := startIdx;
      while i <= endIdx
        invariant startIdx <= i <= |sections|
        invariant i <= endIdx + 1 || i == startIdx
        invariant ranges == Collected(sections, startIdx, endIdx, i)
        decreases endIdx + 1 - i
      {
        var el := sections[i];
        if !Truthy(el.id) {
          i := i + 1;
          continue;
        }
        if el.textLength.None? {
          i := i + 1;
          continue;
        }
        var fullLength := el.textLength.value;
        if fullLength == 0 {
          i := i + 1;
          continue;
        }
        if i == startIdx {
          if el.offsetAtStart.Some? && el.offsetAtStart.value < fullLength {
            ranges := ranges + [SectionRange(el.id.value, el.offsetAtStart.value, fullLength)];
          }
        } else if i == endIdx {
          if el.offsetAtEnd.Some? && el.offsetAtEnd.value > 0 {
            ranges := ranges + [SectionRange(el.id.value, 0, el.offsetAtEnd.value)];
          }
        } else {
          ranges := ranges + [SectionRange(el.id.value, 0, fullLength)];
        }
        i := i + 1;
      }
    }

    /** handleMouseUp: keeps, clears or sets the selection as `Decide` says. */
    method HandleMouseUp(m: MouseUp)
      modifies this
      ensures selection == Apply(old(selection), Decide(m))
    {
      if !m.hasSelection || m.isCollapsed || m.rangeCount == 0 {
        return;
      }
      var selectedText := Trim(m.text);
      if selectedText == [] {
        return;
      }
      if m.startSection.None? || m.endSection.None? {
        selection := None;
        return;
      }
      var startEl, endEl := m.startSection.value, m.endSection.value;
      if startEl.key == endEl.key {
        if !Truthy(startEl.id) {
          selection := None;
          return;
        }
        var offsets := DomRangeToTextOffsets(m.rawOffsets);
        if offsets.None? {
          selection := None;
          return;
        }
        selection := Some(Selection([SectionRange(startEl.id.value, offsets.value.start, offsets.value.end)], selectedText));
        return;
      }
      if !m.hasContainer {
        selection := None;
        return;
      }
      var startIdx := IndexOfKey(m.allSections, startEl.key);
      var endIdx := IndexOfKey(m.allSections, endEl.key);
      if startIdx == -1 || endIdx == -1 {
        selection := None;
        return;
      }
      var ranges := CollectRanges(m.allSections, startIdx, endIdx);
      if |ranges| == 0 {
        selection := None;
        return;
      }
      selection := Some(Selection(ranges, selectedText));
    }

    /** clearSelection: always back to no selection. */
    method ClearSelection()
      modifies this
      ensures selection.None?
    {
      selection := None;
    }
  }
}
