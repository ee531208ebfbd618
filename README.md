# script-map core, modelled in Dafny

script-map is a web app for annotating video scripts:
- A script is pasted in and split into sections (acts, scenes, headings, paragraphs).
- Collaborators highlight character ranges of a section and tag each highlight with a coverage category (media, graphics, on camera, field footage).
- Media files and file references are attached to highlights and sections.
- The whole media library can be downloaded as one ZIP archive.

This project models the logic at the core of the app:

- **Span resolver** (`AnnotationEngine`, src/lib/annotationEngine.ts).
  - It cuts a section's text at every clamped highlight offset into an ordered, gap-free list of spans.
  - Each span is tagged with the ids of the highlights that contain it.
  - It also holds the category and colour rules.
- **Script parser** (`SectionParser`, src/lib/sectionParser.ts).
  - It splits the text on blank lines.
  - It classifies each chunk's first line by priority-ordered patterns.
  - It turns each chunk into one or two sections.
- **Annotation cache** (`AnnotationStore`, src/hooks/useAnnotationStore.ts). This is the client-side store of highlights, attachments, media and UI selection.
  - The class `Store` holds the store's fields and has one method per action.
  - Each method states its whole new state. A setter or an add is one field update of the old state. A removal of a media row or a comment is the old list filtered by id. The other actions reach the state that a pure transition on `StoreState` (the `...Step` functions) describes.
  - The lemmas about those transitions state what each action removes, keeps and clears.
- **Selection mapper** (`TextSelection`, src/hooks/useTextSelection.ts).
  - The mouse-up handler turns a browser selection into one half-open character range per touched section.
  - The DOM is abstracted into the facts the handler reads from it.
- **Media download** (`DownloadMedia`, src/hooks/useDownloadAllMedia.ts).
  - Pure helpers: library totals, file-name de-duplication, the file-reference manifest and the ZIP name.
  - The download status machine, whose sequence of reported states is given as a function of what the network, the signing call and the user's cancel do.
- **Route guard** (`Middleware`, src/middleware.ts).
  - The protected-route test.
  - The redirect decision for one request.

Shared modules:
- `Records`: the database rows the core reads.
- `Strings`: `trim`, `split`, `join`, `lastIndexOf`, decimal rendering, and string order.
- `Seqs`: `filter` and `find`.
- `Wrappers`: `Option`.

Text is `seq<char>`, whose elements stand for UTF-16 code units, so offsets and lengths are JavaScript string lengths throughout.

## Model

| member | source | states |
|---|---|---|
| AnnotationEngine.CoverageTypeOf | src/lib/annotationEngine.ts:15-20 | a label names a category exactly when it is one of the four keys, and the category found has that key |
| AnnotationEngine.GetCoverageType | src/lib/annotationEngine.ts:23-28 | a highlight's category is its label when the label is one of the four keys, otherwise media |
| AnnotationEngine.GetHighlightCssColor | src/lib/annotationEngine.ts:31-33 | a non-empty own colour wins; otherwise the colour of the highlight's category; never empty |
| AnnotationEngine.GetSpanColor | src/lib/annotationEngine.ts:36-41 | transparent for no ids; the media colour when the first id matches no highlight; otherwise the colour of the first highlight in the list carrying the first id |
| AnnotationEngine.SpanColorFirstIdOnly | src/lib/annotationEngine.ts:36-41 | only the first id of a span decides its colour |
| AnnotationEngine.ToLineColor | src/lib/annotationEngine.ts:44-55 | the table gives a line variant exactly for the five known colours, each one the colour with "-line" inserted before its closing parenthesis |
| AnnotationEngine.KnownColorsHaveLineVariant | src/lib/annotationEngine.ts:15-50 | every category colour and every collaborator colour has a line variant |
| AnnotationEngine.JsRemainder | src/lib/annotationEngine.ts:148 | JavaScript's `%`: below the divisor in magnitude, equal to the mathematical remainder for a non-negative dividend and never positive for a negative one |
| AnnotationEngine.GetHighlightColor | src/lib/annotationEngine.ts:139-149 | a non-negative index always yields one of the five palette colours; any result is one of them |
| AnnotationEngine.HighlightColorPeriodic | src/lib/annotationEngine.ts:147-149 | collaborator i and collaborator i + 5 get the same colour |
| AnnotationEngine.NegativeIndexColor | src/lib/annotationEngine.ts:147-149 | a negative index yields a colour only when it is a multiple of five; every other negative index reads before the array |
| AnnotationEngine.Clamp | src/lib/annotationEngine.ts:104-105 | an offset is clamped into [0, len]: unchanged inside, 0 below, len above |
| AnnotationEngine.ClampedOffsetsMembers | src/lib/annotationEngine.ts:103-108 | the collected offsets are exactly the clamped starts and ends of the highlights |
| AnnotationEngine.ClampedOffsets | src/lib/annotationEngine.ts:103-108 | every collected highlight offset lies within the text, 0 to its length |
| AnnotationEngine.Boundaries | src/lib/annotationEngine.ts:99-108 | the boundary set always holds 0 and the text length and lies within [0, len] |
| AnnotationEngine.Sorted | src/lib/annotationEngine.ts:111 | sorting the boundary set gives a strictly increasing list with the same members |
| AnnotationEngine.SortedUnique | src/lib/annotationEngine.ts:111 | two strictly increasing lists with the same members are equal, so the sorted boundary list is determined by the set |
| AnnotationEngine.SortedBoundariesShape | src/lib/annotationEngine.ts:99-111 | the sorted boundaries start at 0, end at the text length, and form a single point exactly when the text is empty |
| AnnotationEngine.Covering | src/lib/annotationEngine.ts:123-125 | an id is listed for [a, b) exactly when some highlight with that id starts at or before a and ends at or after b, on raw offsets; never more ids than highlights |
| AnnotationEngine.CoveringAppend | src/lib/annotationEngine.ts:123-125 | the covering ids of a concatenated list are those of each part in order, so ids keep input order |
| AnnotationEngine.CoveringFirst | src/lib/annotationEngine.ts:123-125 | the first covering id is the id of the first covering highlight in the list |
| AnnotationEngine.SpansOver | src/lib/annotationEngine.ts:116-133 | one span per pair of neighbouring boundaries |
| AnnotationEngine.SpansOverAt | src/lib/annotationEngine.ts:116-133 | span k runs from boundary k to boundary k + 1, holds exactly that slice of the text and the ids of the highlights covering it |
| AnnotationEngine.SpansOverTexts | src/lib/annotationEngine.ts:127-133 | the span texts concatenate to the text between the first and the last boundary |
| AnnotationEngine.SpansOverPartition | src/lib/annotationEngine.ts:116-133 | spans over boundaries from 0 to len partition the text: first starts at 0, last ends at len, each ends where the next starts, each is non-empty with its own slice as text |
| AnnotationEngine.RenderSpans | src/lib/annotationEngine.ts:90-136 | the spans of a section: one uncovered span over the whole text when there are no highlights, else the spans over the sorted boundaries; its properties are the RenderSpans lemmas below |
| AnnotationEngine.RenderSpansPartition | src/lib/annotationEngine.ts:99-135 | with at least one highlight the spans partition the text, and there are none exactly when the text is empty |
| AnnotationEngine.RenderSpansBoundaries | src/lib/annotationEngine.ts:99-120 | every span starts at a boundary and no boundary falls strictly inside a span |
| AnnotationEngine.HighlightEndsAreBoundaries | src/lib/annotationEngine.ts:103-108 | the clamped start and end of every highlight start a span, unless they are the text's end; out-of-range offsets cause no failure |
| AnnotationEngine.RenderSpansCoverage | src/lib/annotationEngine.ts:122-125 | a span lists an id exactly when a highlight with that id contains it on raw offsets; an inverted highlight covers no span |
| AnnotationEngine.RenderedSpanColor | src/lib/annotationEngine.ts:36-41 | with unique ids, a highlighted span takes the colour of the first highlight in the list that covers it |
| AnnotationEngine.SpanColorOfFirst | src/lib/annotationEngine.ts:38-40 | with unique ids, the span colour is the colour of the highlight whose id is listed first |
| AnnotationEngine.CollectBoundaries | src/lib/annotationEngine.ts:99-108 | the loop collects exactly the boundary set: 0, the length and every clamped highlight offset |
| AnnotationEngine.SortBoundaries | src/lib/annotationEngine.ts:111 | the selection loop returns the boundary set in increasing order |
| AnnotationEngine.SpansBetween | src/lib/annotationEngine.ts:114-133 | the span loop yields one span per neighbouring boundary pair, as the partition specification says |
| AnnotationEngine.ComputeRenderSpans | src/lib/annotationEngine.ts:90-136 | no highlights gives the single span [0, len) without ids, even for empty text; otherwise the result is the specified span list, about which the partition and coverage lemmas hold |
| AnnotationEngine.SingleHighlight | src/lib/annotationEngine.ts:99-135 | one in-range highlight splits the text into at most three spans, and only the middle one carries its id |
| AnnotationEngine.StackingExample | src/lib/annotationEngine.ts:76-89 | on a 25-character text with A = [4, 15) and B = [10, 24) the spans are [0,4) none, [4,10) A, [10,15) A and B, [15,24) B, [24,25) none |
| AnnotationEngine.HelloWorldExample | src/lib/annotationEngine.ts:90-135 | "Hello world" with [0, 5) gives "Hello" with the id, then " world" without |
| SectionParser.MatchBlankLine | src/lib/sectionParser.ts:35 | finds the longest blank line (newline, whitespace, newline) starting at a position, or reports that none starts there |
| SectionParser.SplitBlankLines | src/lib/sectionParser.ts:35 | splitting on blank lines gives at least one chunk; every chunk is a slice of the text with no blank line in it; the chunks with the removed separators put back between them are the text again |
| SectionParser.BlankLineSeparators | src/lib/sectionParser.ts:35 | one separator between each pair of neighbouring chunks, each a newline, optional whitespace and a newline |
| SectionParser.SplitFromRebuilds | src/lib/sectionParser.ts:35 | from any position, the chunks and separators the split produces alternate and rebuild the rest of the text, with one separator fewer than chunks |
| SectionParser.SplitWithoutBlankLine | src/lib/sectionParser.ts:35 | text without a blank line is one chunk |
| SectionParser.WsThenWordMeaning | src/lib/sectionParser.ts:7-8 | "whitespace then a word character" holds exactly when some position after at least one whitespace character holds a word character |
| SectionParser.ActMatch | src/lib/sectionParser.ts:7 | `ACT` in any case followed by whitespace and a word character; what it accepts is stated by WsThenWordMeaning and ClassifyPriority |
| SectionParser.SceneMatch | src/lib/sectionParser.ts:8 | `SCENE`, `SC.` or `SC` in any case followed by whitespace and a word character; see WsThenWordMeaning and ClassifyPriority |
| SectionParser.IntExtMatch | src/lib/sectionParser.ts:9 | an `INT.`, `EXT.` or `INT./EXT.` prefix in any case; see IntExtAlternativeSubsumed and ClassifyPriority |
| SectionParser.HeadingMatch | src/lib/sectionParser.ts:10 | an upper-case ASCII letter and at least four more characters of the heading class, case-sensitive; see HeadingLineShape |
| SectionParser.ClassifyLine | src/lib/sectionParser.ts:12-31 | a type is given exactly when a title is, the title is the trimmed line, and the type is never paragraph |
| SectionParser.ClassifyPriority | src/lib/sectionParser.ts:7-31 | act beats scene, scene (SCENE, SC, SC. or an INT./EXT. prefix) beats heading, heading needs the heading pattern and fewer than 80 characters, and none otherwise, each in both directions |
| SectionParser.ClassifiedLineNonEmpty | src/lib/sectionParser.ts:16-28 | a line that trims to nothing is never classified |
| SectionParser.HeadingLineShape | src/lib/sectionParser.ts:10 | a heading line has 5 to 79 characters, starts with A-Z and has no lower-case ASCII letter |
| SectionParser.ClassifyTrimInvariant | src/lib/sectionParser.ts:16 | classifying a trimmed line gives the same result as classifying the line |
| SectionParser.IntExtAlternativeSubsumed | src/lib/sectionParser.ts:9 | every "INT./EXT." line already matches the "INT." alternative |
| SectionParser.ChunkSections | src/lib/sectionParser.ts:38-74 | the sections of one chunk; what each kind of chunk yields is stated by ChunkContents, TwoSectionsExactly, ChunkShape and ChunkWellFormed |
| SectionParser.Parse | src/lib/sectionParser.ts:33-78 | parseScriptText as a value: the sections of the chunks, in chunk order; its properties are ParseProperties, ParseCoverage and KitchenExample |
| SectionParser.ParseScriptText | src/lib/sectionParser.ts:33-78 | the loop over the chunks emits the sections of each chunk in chunk order, as the specification does |
| SectionParser.ChunkShape | src/lib/sectionParser.ts:38-74 | a chunk yields nothing exactly when it is blank, never more than two sections, a pair is a heading section followed by a paragraph, and a paragraph first only as the whole trimmed chunk |
| SectionParser.ChunkWellFormed | src/lib/sectionParser.ts:38-74 | every section a chunk yields has a non-empty trimmed body without a blank line, a title exactly when it is not a paragraph, and a title equal to its body |
| SectionParser.ChunkContents | src/lib/sectionParser.ts:38-74 | each chunk's sections with their titles, bodies and types: nothing for a blank chunk; the trimmed chunk titled with its type for a classified single line; the trimmed chunk as a paragraph when the first line is unclassified; for a classified first line of several, that line as the titled section followed by the trimmed rest as a paragraph when the rest is not empty |
| SectionParser.TwoSectionsExactly | src/lib/sectionParser.ts:52-66 | a chunk yields two sections exactly when it has several lines, its first line is classified and the rest is not blank; the two are then the titled first line and the rest as a paragraph |
| SectionParser.ChunkCovered | src/lib/sectionParser.ts:38-74 | a chunk is its sections' bodies, in order, with only whitespace before, between and after them |
| SectionParser.ParseCoverage | src/lib/sectionParser.ts:33-78 | the text is the parsed bodies, in order, with only whitespace around and between them: parsing loses nothing but whitespace |
| SectionParser.KitchenExample | src/lib/sectionParser.ts:33-78 | "INT. KITCHEN - DAY" and "John enters." on two lines give a scene titled and bodied "INT. KITCHEN - DAY" followed by the paragraph "John enters." |
| SectionParser.ParseProperties | src/lib/sectionParser.ts:33-78 | every parsed section is well formed, and there are at least as many sections as non-blank chunks and at most twice as many |
| SectionParser.ParseWhitespaceOnly | src/lib/sectionParser.ts:35-39 | empty or whitespace-only text yields no sections |
| SectionParser.ParseSingleChunk | src/lib/sectionParser.ts:35-43 | text without a blank line is parsed as one chunk |
| AnnotationStore.FindHighlight | src/hooks/useAnnotationStore.ts:100 | the found highlight is in the list with that id; none is found exactly when no highlight has it |
| AnnotationStore.GroupOf | src/hooks/useAnnotationStore.ts:100-103 | a group is reported only when it is non-empty and the found highlight carries it |
| AnnotationStore.RemoveHighlightEffect | src/hooks/useAnnotationStore.ts:98-121 | removes exactly the highlights whose ids are removed (the group, or the id alone) and their media rows; a selection that stays was not removed; an ungrouped id keeps the group selection; nothing else changes |
| AnnotationStore.RemoveHighlightStep | src/hooks/useAnnotationStore.ts:98-121 | the state after removeHighlight; stated by RemoveHighlightEffect, RemoveHighlightRemovesGroup and RemoveHighlightKeepsAttached |
| AnnotationStore.RemoveHighlightRemovesGroup | src/hooks/useAnnotationStore.ts:103-113 | after removing a grouped highlight no highlight of that group remains |
| AnnotationStore.RemoveHighlightKeepsAttached | src/hooks/useAnnotationStore.ts:98-121 | if every media row belonged to a loaded highlight, it still does after the removal |
| AnnotationStore.UpdateNoteEffect | src/hooks/useAnnotationStore.ts:122-127 | only the note of highlights with that id changes; length, order, other fields and the rest of the store are kept |
| AnnotationStore.UpdateNoteIdempotent | src/hooks/useAnnotationStore.ts:122-127 | setting the same note twice is the same as once |
| AnnotationStore.UpdateNoteKeepsAttached | src/hooks/useAnnotationStore.ts:122-127 | updating a note keeps every media row attached to a loaded highlight |
| AnnotationStore.RemoveMediaFileEffect | src/hooks/useAnnotationStore.ts:144-149 | removes the file and every highlight and section media row that names it; nothing else changes |
| AnnotationStore.RemoveFileReferenceEffect | src/hooks/useAnnotationStore.ts:154-159 | removes the reference and every highlight and section media row that names it; nothing else changes |
| AnnotationStore.RemoveMediaFileKeepsResolved | src/hooks/useAnnotationStore.ts:144-149 | if every media row named an existing file or reference, it still does after the file is removed |
| AnnotationStore.RemoveFileReferenceKeepsResolved | src/hooks/useAnnotationStore.ts:154-159 | if every media row named an existing file or reference, it still does after the reference is removed |
| AnnotationStore.EarliestIndex | src/hooks/useAnnotationStore.ts:183-188 | picks a member with the smallest creation time, the first such in list order |
| AnnotationStore.SelectHighlightEffect | src/hooks/useAnnotationStore.ts:170-198 | the tab is the given one or media, the section selection is cleared, the sidebar is open exactly for a truthy id, no id clears both selections, an ungrouped or unknown id is selected itself, nothing else changes |
| AnnotationStore.SelectHighlightStep | src/hooks/useAnnotationStore.ts:170-198 | the state after selectHighlight; stated by SelectHighlightEffect, SelectHighlightPicksEarliest and SelectPrimaryIdempotent |
| AnnotationStore.PrimaryOf | src/hooks/useAnnotationStore.ts:176-189 | the id selectHighlight selects: the earliest member of a truthy group that has members, else the id itself; stated by SelectHighlightPicksEarliest and PrimaryIsFixed |
| AnnotationStore.SelectHighlightPicksEarliest | src/hooks/useAnnotationStore.ts:176-189 | selecting a grouped highlight selects its group and the member with the earliest creation time, the first on ties |
| AnnotationStore.PrimaryIsFixed | src/hooks/useAnnotationStore.ts:181-189 | with unique ids the primary member belongs to the same group and is its own primary |
| AnnotationStore.SelectPrimaryIdempotent | src/hooks/useAnnotationStore.ts:170-198 | selecting the highlight the store has just selected changes nothing |
| AnnotationStore.CloseSidebarEffect | src/hooks/useAnnotationStore.ts:203-243 | the sidebar closes and all three selections clear; a selected media highlight with no media row is deleted with its group; otherwise the highlights are kept; media rows and everything else stay |
| AnnotationStore.CloseSidebarStep | src/hooks/useAnnotationStore.ts:203-243 | the state after closeSidebar; stated by CloseSidebarEffect and CloseSidebarUngroupedKeepsAttached |
| AnnotationStore.KeptOnClose | src/hooks/useAnnotationStore.ts:204-240 | the highlights closeSidebar keeps: all of them, unless the selected highlight is a media highlight without media rows, whose id or group it then drops; stated by CloseSidebarEffect |
| AnnotationStore.CloseSidebarUngroupedKeepsAttached | src/hooks/useAnnotationStore.ts:228-236 | pruning an ungrouped highlight keeps every media row attached |
| AnnotationStore.CloseSidebarOrphansSiblingMedia | src/hooks/useAnnotationStore.ts:215-227 | pruning a group can leave media rows of sibling highlights pointing at deleted highlights |
| AnnotationStore.UiActionsKeepSelectionExclusive | src/hooks/useAnnotationStore.ts:170-243 | after selecting a highlight, selecting a section or closing the sidebar, a highlight and a section are never both selected; removing a highlight keeps that |
| AnnotationStore.Resolve | src/hooks/useAnnotationStore.ts:254-257 | resolved items exist in the library, are named by some entry, and are no more than the entries |
| AnnotationStore.ResolveAppend | src/hooks/useAnnotationStore.ts:254-257 | resolution works entry by entry, so results keep entry order |
| AnnotationStore.ResolveFinds | src/hooks/useAnnotationStore.ts:254-261 | an entry naming an item that exists contributes the first such item |
| AnnotationStore.ResolveKeepsAll | src/hooks/useAnnotationStore.ts:254-261 | when every entry names an existing item, nothing is dropped |
| AnnotationStore.HighlightsForSection | src/hooks/useAnnotationStore.ts:246-247 | exactly the highlights of that section |
| AnnotationStore.MediaForHighlight | src/hooks/useAnnotationStore.ts:249-263 | exactly the rows of that highlight; uploaded files and references are existing items named by one of those rows, dangling ids dropped |
| AnnotationStore.MediaForSection | src/hooks/useAnnotationStore.ts:265-279 | exactly the rows of that section; uploaded files and references are existing items named by one of those rows, dangling ids dropped |
| AnnotationStore.Store.constructor | src/hooks/useAnnotationStore.ts:76-92 | the store starts empty, with nothing selected, the sidebar closed and the media tab |
| AnnotationStore.Store.SetHighlights | src/hooks/useAnnotationStore.ts:95 | replaces the highlights and nothing else |
| AnnotationStore.Store.AddHighlight | src/hooks/useAnnotationStore.ts:96-97 | appends the highlight at the end and changes nothing else |
| AnnotationStore.Store.RemovalOf | src/hooks/useAnnotationStore.ts:99-107 | returns the ids removeHighlight deletes and the group it looked up |
| AnnotationStore.Store.RemoveHighlight | src/hooks/useAnnotationStore.ts:98-121 | reaches the removal transition, about which RemoveHighlightEffect holds |
| AnnotationStore.Store.UpdateHighlightNote | src/hooks/useAnnotationStore.ts:122-127 | reaches the note transition, about which UpdateNoteEffect holds |
| AnnotationStore.Store.SetHighlightMedia | src/hooks/useAnnotationStore.ts:129 | replaces the highlight media rows and nothing else |
| AnnotationStore.Store.AddHighlightMedia | src/hooks/useAnnotationStore.ts:130-131 | appends the row at the end and changes nothing else |
| AnnotationStore.Store.RemoveHighlightMedia | src/hooks/useAnnotationStore.ts:132-133 | the new rows are the old rows, in their order, without those with the given id; nothing else changes |
| AnnotationStore.Store.SetSectionMedia | src/hooks/useAnnotationStore.ts:135 | replaces the section media rows and nothing else |
| AnnotationStore.Store.AddSectionMedia | src/hooks/useAnnotationStore.ts:136-137 | appends the row at the end and changes nothing else |
| AnnotationStore.Store.RemoveSectionMedia | src/hooks/useAnnotationStore.ts:138-139 | the new rows are the old rows, in their order, without those with the given id; nothing else changes |
| AnnotationStore.Store.SetMediaFiles | src/hooks/useAnnotationStore.ts:141 | replaces the media files and nothing else |
| AnnotationStore.Store.AddMediaFile | src/hooks/useAnnotationStore.ts:142-143 | appends the file at the end and changes nothing else |
| AnnotationStore.Store.RemoveMediaFile | src/hooks/useAnnotationStore.ts:144-149 | reaches the cascading removal, about which RemoveMediaFileEffect holds |
| AnnotationStore.Store.SetFileReferences | src/hooks/useAnnotationStore.ts:151 | replaces the file references and nothing else |
| AnnotationStore.Store.AddFileReference | src/hooks/useAnnotationStore.ts:152-153 | appends the reference at the end and changes nothing else |
| AnnotationStore.Store.RemoveFileReference | src/hooks/useAnnotationStore.ts:154-159 | reaches the cascading removal, about which RemoveFileReferenceEffect holds |
| AnnotationStore.Store.SetComments | src/hooks/useAnnotationStore.ts:161 | replaces the comments and nothing else |
| AnnotationStore.Store.AddComment | src/hooks/useAnnotationStore.ts:162-163 | appends the comment at the end and changes nothing else |
| AnnotationStore.Store.RemoveComment | src/hooks/useAnnotationStore.ts:164-165 | the new comments are the old ones, in their order, without those with the given id; nothing else changes |
| AnnotationStore.Store.SetProfiles | src/hooks/useAnnotationStore.ts:166 | replaces the profiles and nothing else |
| AnnotationStore.Store.SetCurrentUserId | src/hooks/useAnnotationStore.ts:167 | replaces the current user and nothing else |
| AnnotationStore.Store.SelectionFor | src/hooks/useAnnotationStore.ts:176-189 | returns the id's group and its primary member |
| AnnotationStore.Store.SelectHighlight | src/hooks/useAnnotationStore.ts:170-198 | reaches the selection transition, about which SelectHighlightEffect and SelectHighlightPicksEarliest hold |
| AnnotationStore.Store.SelectSectionForMedia | src/hooks/useAnnotationStore.ts:199-200 | selects the section, clears both highlight selections, opens the sidebar exactly for a truthy id, shows the media tab |
| AnnotationStore.Store.OpenSidebar | src/hooks/useAnnotationStore.ts:201 | opens the sidebar and changes nothing else |
| AnnotationStore.Store.SetSidebarTab | src/hooks/useAnnotationStore.ts:202 | sets the tab and changes nothing else |
| AnnotationStore.Store.HighlightsKeptOnClose | src/hooks/useAnnotationStore.ts:204-240 | returns the highlights closeSidebar keeps |
| AnnotationStore.Store.CloseSidebar | src/hooks/useAnnotationStore.ts:203-243 | reaches the closing transition, about which CloseSidebarEffect holds |
| TextSelection.DomRangeToTextOffsets | src/hooks/useTextSelection.ts:140-159 | nothing when measuring failed or the range is empty; otherwise the two lengths, smaller first, so start < end |
| TextSelection.IndexOfKey | src/hooks/useTextSelection.ts:62-64 | the first position of the section in the list, or -1 exactly when it is absent |
| TextSelection.RangeAt | src/hooks/useTextSelection.ts:69-96 | a section contributes only with an id, and then a non-empty range tagged with that id |
| TextSelection.RangeAtRules | src/hooks/useTextSelection.ts:69-96 | the per-section rules in both directions, with values: nothing without an id or text; the first section gets [start, length) exactly when start < length; the last gets [0, end) exactly when end > 0; any other gets [0, length) |
| TextSelection.Collected | src/hooks/useTextSelection.ts:67-97 | the ranges of the sections from the start index up to a bound, in section order; stated by CollectedInSectionOrder and CollectedContains |
| TextSelection.CollectedInSectionOrder | src/hooks/useTextSelection.ts:67-97 | ranges come one per contributing section, from sections in the visited interval, in strictly increasing section order, each what its section contributes and non-empty |
| TextSelection.CollectedContains | src/hooks/useTextSelection.ts:67-97 | conversely, every range a visited section contributes is among the collected ranges |
| TextSelection.MiddleSectionWhole | src/hooks/useTextSelection.ts:93-96 | a section strictly between the two ends that has an id and text is selected whole |
| TextSelection.KeepExactlyWhenNothingSelected | src/hooks/useTextSelection.ts:24-32 | the state is left as it is exactly when there is no selection, it is collapsed, has no range, or its text trims to nothing |
| TextSelection.OutsideSectionsClears | src/hooks/useTextSelection.ts:34-39 | an end outside every section clears the selection |
| TextSelection.SingleSectionOneRange | src/hooks/useTextSelection.ts:42-55 | within one section: cleared exactly when there is no id or no non-empty measured range; otherwise exactly one range of that section, from the smaller to the larger offset |
| TextSelection.MultiSectionOutcome | src/hooks/useTextSelection.ts:58-105 | no container, an unresolved end, or a start after the end clears; a set selection holds the ranges collected from the start section to the end section |
| TextSelection.Decide | src/hooks/useTextSelection.ts:24-106 | what one mouse-up does to the selection; its cases are stated by KeepExactlyWhenNothingSelected, OutsideSectionsClears, SingleSectionOneRange, MultiSectionOutcome and SetSelectionsWellFormed |
| TextSelection.SetSelectionsWellFormed | src/hooks/useTextSelection.ts:24-106 | every selection set has at least one range, every range non-empty, and the trimmed, non-empty selected text |
| TextSelection.SelectionTracker.constructor | src/hooks/useTextSelection.ts:22 | starts with no selection |
| TextSelection.SelectionTracker.CollectRanges | src/hooks/useTextSelection.ts:67-97 | the loop over sections `startIdx..endIdx` gathers exactly the collected ranges |
| TextSelection.SelectionTracker.HandleMouseUp | src/hooks/useTextSelection.ts:24-106 | the new selection is the old one or the one the handler's decision sets, about which the lemmas above hold |
| TextSelection.SelectionTracker.ClearSelection | src/hooks/useTextSelection.ts:108-111 | always leaves no selection |
| DownloadMedia.TotalSizeAppend | src/hooks/useDownloadAllMedia.ts:32 | the total size is additive over concatenated file lists |
| DownloadMedia.TotalSizeBytes | src/hooks/useDownloadAllMedia.ts:32 | the sum of the files' sizes; stated by TotalSizeAppend and TotalSizeBounds |
| DownloadMedia.TotalSizeBounds | src/hooks/useDownloadAllMedia.ts:32 | with non-negative sizes the total is non-negative and at least every single file's size |
| DownloadMedia.RenamedShape | src/hooks/useDownloadAllMedia.ts:66-69 | a first occurrence keeps its name; a later one gets " (k)" inserted before its last dot, or appended when there is none |
| DownloadMedia.Renamed | src/hooks/useDownloadAllMedia.ts:66-69 | the name of the count-th repeat; its shape is stated by RenamedShape |
| DownloadMedia.UniqueNames | src/hooks/useDownloadAllMedia.ts:62-70 | one output name per input name |
| DownloadMedia.UniqueNamesAt | src/hooks/useDownloadAllMedia.ts:62-70 | name i is renamed with the number of earlier occurrences of the same original name |
| DownloadMedia.UniqueNamesPrefix | src/hooks/useDownloadAllMedia.ts:63-70 | the names of a prefix of the list do not depend on what follows |
| DownloadMedia.FirstOccurrenceKept | src/hooks/useDownloadAllMedia.ts:63-69 | the first occurrence of a name is unchanged, and every repeat is renamed to something longer |
| DownloadMedia.NamesNeedNotBeUnique | src/hooks/useDownloadAllMedia.ts:62-70 | counting original names can produce a duplicate: "a (1).txt", "a.txt", "a.txt" gives "a (1).txt" twice |
| DownloadMedia.DedupNames | src/hooks/useDownloadAllMedia.ts:62-70 | the loop with its per-name counter map computes the de-duplicated names |
| DownloadMedia.Entries | src/hooks/useDownloadAllMedia.ts:103-110 | one manifest entry per file reference, the k-th entry being the entry of the k-th reference |
| DownloadMedia.ManifestEntry | src/hooks/useDownloadAllMedia.ts:104-109 | the lines of one reference; stated by ManifestEntryStart and ManifestExample |
| DownloadMedia.JoinWithLength | src/hooks/useDownloadAllMedia.ts:111 | joining adds one separator between each pair of neighbouring parts |
| DownloadMedia.ManifestEntryStart | src/hooks/useDownloadAllMedia.ts:104-109 | an entry starts with "- " and the file name, and is only that for an "other" reference without location or description |
| DownloadMedia.Rule | src/hooks/useDownloadAllMedia.ts:117 | the rule under the manifest title is 44 "=" characters |
| DownloadMedia.ManifestFile | src/hooks/useDownloadAllMedia.ts:101-120 | the manifest is added exactly when there are file references, as a text entry named "_file_references.txt" |
| DownloadMedia.ManifestExample | src/hooks/useDownloadAllMedia.ts:102-119 | two references give the header, the two entries separated by a blank line, and a final newline |
| DownloadMedia.ManifestList | src/hooks/useDownloadAllMedia.ts:101-120 | the archive gets at most one manifest |
| DownloadMedia.StripDisallowed | src/hooks/useDownloadAllMedia.ts:130 | removing disallowed characters leaves only letters, digits, whitespace, "-" and "_" |
| DownloadMedia.StripAllowed | src/hooks/useDownloadAllMedia.ts:130 | a title of allowed characters only is not changed by the removal |
| DownloadMedia.StripOne | src/hooks/useDownloadAllMedia.ts:130 | a single character is kept exactly when it is allowed |
| DownloadMedia.StripAppend | src/hooks/useDownloadAllMedia.ts:130 | the removal works character by character: it distributes over concatenation |
| DownloadMedia.SafeName | src/hooks/useDownloadAllMedia.ts:129-130 | the safe name is non-empty, trimmed and made of allowed characters; it is "project" when nothing but whitespace survives the removal, and otherwise exactly the trimmed stripped title |
| DownloadMedia.SafeNameOfSafe | src/hooks/useDownloadAllMedia.ts:129-130 | a title that is already non-empty, trimmed and allowed is kept as it is |
| DownloadMedia.SafeNameIdempotent | src/hooks/useDownloadAllMedia.ts:129-130 | sanitising a safe name changes nothing |
| DownloadMedia.Failure | src/hooks/useDownloadAllMedia.ts:139-148 | a failure ends cancelled exactly when the download was aborted, else in an error carrying the thrown message or "Download failed." |
| DownloadMedia.FileEntries | src/hooks/useDownloadAllMedia.ts:92-96 | archive entry k is file k's body under de-duplicated name k |
| DownloadMedia.FetchFromProgress | src/hooks/useDownloadAllMedia.ts:73-98 | each downloading state reports the number of files already fetched, the number of signed files and the current file's name |
| DownloadMedia.FetchFrom | src/hooks/useDownloadAllMedia.ts:72-126 | the states reported from file i on: a downloading state per file until a cancel or a failed fetch, then the final state; stated by FetchFromProgress, FetchFromLast, FetchFromCompletes, FetchFromSettled and FetchFromCancelled |
| DownloadMedia.FetchFromLast | src/hooks/useDownloadAllMedia.ts:73-99 | at each file the run ends cancelled if cancelled there, in "Failed to fetch name: status" if the response is not ok, and otherwise as the rest of the run ends |
| DownloadMedia.FetchFromCompletes | src/hooks/useDownloadAllMedia.ts:72-126 | the file loop completes exactly when every remaining file is fetched with an ok status, without a cancel, and the ZIP step is not cancelled |
| DownloadMedia.FetchFromSettled | src/hooks/useDownloadAllMedia.ts:72-148 | the run always ends complete, in an error or cancelled |
| DownloadMedia.FetchFromCancelled | src/hooks/useDownloadAllMedia.ts:72-148 | a run ends cancelled only when the user cancelled |
| DownloadMedia.NoMediaFails | src/hooks/useDownloadAllMedia.ts:44-54 | an empty library goes straight to the error "No media files to download." without preparing; any other starts by preparing |
| DownloadMedia.RunProgress | src/hooks/useDownloadAllMedia.ts:59-98 | whenever progress is reported, completed < total |
| DownloadMedia.RunOutcome | src/hooks/useDownloadAllMedia.ts:44-148 | the run always settles, ends cancelled only after a cancel, and completes exactly when there is media, signing succeeded, no cancel intervened and every file was fetched with an ok status |
| DownloadMedia.RunStates | src/hooks/useDownloadAllMedia.ts:44-148 | the states one download reports: an error without media, else preparing, then the signing outcome and the file states; stated by NoMediaFails, RunProgress and RunOutcome |
| DownloadMedia.Archive | src/hooks/useDownloadAllMedia.ts:72-132 | the archive a completed run hands to the browser: the files under their de-duplicated names, the manifest when there are references, and the safe ZIP name |
| DownloadMedia.Run | src/hooks/useDownloadAllMedia.ts:53-148 | reports the specified sequence of states, and a completed run has zipped every signed file under its de-duplicated name plus the manifest |
| DownloadMedia.FileTurn | src/hooks/useDownloadAllMedia.ts:74-98 | one loop turn stops exactly on a cancel or a failed response, with the run's final states; otherwise it reports progress and the run continues with the next file |
| DownloadMedia.GenerateFiles | src/hooks/useDownloadAllMedia.ts:72-121 | the generator loop reports the specified states, and when it completes it has yielded every file in order and then the manifest |
| DownloadMedia.Downloader.constructor | src/hooks/useDownloadAllMedia.ts:29 | the status starts idle |
| DownloadMedia.Downloader.Cancel | src/hooks/useDownloadAllMedia.ts:35-38 | cancel always moves to cancelled |
| DownloadMedia.Downloader.Reset | src/hooks/useDownloadAllMedia.ts:40-42 | reset always moves to idle |
| DownloadMedia.Downloader.StartDownload | src/hooks/useDownloadAllMedia.ts:44-149 | the status ends as the last reported state; an archive is produced exactly on completion, and it is the named ZIP of every signed file under its de-duplicated name plus the manifest |
| Middleware.SomeRoute | src/middleware.ts:70-72 | true exactly when the path is one of the routes or lies below one |
| Middleware.ProtectedMeans | src/middleware.ts:4 | a path is protected exactly when it is a protected route or lies below one |
| Middleware.IsProtected | src/middleware.ts:4-72 | the protected-route test; stated by ProtectedMeans and the route examples below |
| Middleware.ProtectedExamples | src/middleware.ts:70-72 | "/admin", "/admin/x" and "/dashboard" are protected |
| Middleware.NewsletterNotProtected | src/middleware.ts:70-72 | "/newsletter" is not protected, although it starts with "/new" |
| Middleware.AdminsNotProtected | src/middleware.ts:70-72 | "/admins" is not protected |
| Middleware.LoginNotProtected | src/middleware.ts:70-72 | "/login" and "/" are not protected |
| Middleware.GetParam | src/middleware.ts:33 | nothing exactly when no parameter has the key, otherwise a value given for it |
| Middleware.DeleteParam | src/middleware.ts:61 | no parameter with the key remains, and every other parameter is kept |
| Middleware.DeleteKeepsOthers | src/middleware.ts:60-62 | removing one key leaves the value of every other key unchanged |
| Middleware.Decide | src/middleware.ts:30-85 | a request carrying a code is always redirected |
| Middleware.CodeExchange | src/middleware.ts:32-63 | on a successful exchange with a user: /dashboard with a profile, /setup without; otherwise the same path again without the code and with every other parameter kept |
| Middleware.StrippedUrlLeavesCodeBranch | src/middleware.ts:59-63 | the URL left by a failed exchange carries no code |
| Middleware.RouteGuard | src/middleware.ts:65-85 | without a code: an anonymous visitor of a protected path goes to the login page, a signed-in visitor of /login goes to /dashboard, and every other request passes, each in both directions |
| Middleware.LoginRedirectCarriesPath | src/middleware.ts:75-77 | the login redirect goes to /login with `redirectTo` set to the original path and no other parameter |
| Middleware.RedirectsSettle | src/middleware.ts:74-83 | the guard's redirects are let through on arrival, so they do not loop |
| Strings.Trim | src/lib/sectionParser.ts:16 | `trim()`: the result has no whitespace at either end, is empty exactly for whitespace-only text, and is no longer than the input |
| Strings.TrimIdempotent | src/lib/sectionParser.ts:38 | trimming twice is trimming once |
| Strings.SplitOn | src/lib/sectionParser.ts:41 | `split("\n")`: at least one part, no part contains the separator, and a single part exactly when the separator is absent |
| Strings.JoinSplit | src/lib/sectionParser.ts:59 | joining the parts of a split with the same separator gives back the text |
| Strings.LastIndexOf | src/hooks/useDownloadAllMedia.ts:67 | `lastIndexOf`: -1 exactly when the character is absent, otherwise its last position |
| Strings.DecimalRoundTrip | src/hooks/useDownloadAllMedia.ts:68 | the decimal rendering of a counter reads back as the same number |
| Strings.StrLtTransitive | src/hooks/useAnnotationStore.ts:185 | the string order that sorts creation times is transitive |
| Strings.StrLtTotal | src/hooks/useAnnotationStore.ts:185 | any two different creation times are ordered one way or the other |
| Seqs.FilterMembers | src/hooks/useAnnotationStore.ts:109 | `filter` keeps exactly the elements that pass the test |
| Seqs.FilterAppend | src/hooks/useAnnotationStore.ts:109 | `filter` works element by element, so it keeps list order |
| Seqs.FindFirst | src/hooks/useAnnotationStore.ts:100 | `find`: nothing exactly when no element passes, otherwise the first element that passes |

## Left out

- The regular-expression branch of toLineColor (src/lib/annotationEngine.ts:57), which rewrites `oklch()` strings. AnnotationEngine.ToLineColor returns None for every colour outside the table. So getSpanLineColor is only modelled through that lookup.
- AnnotationEngine.CoverageTypeOf: accepts only the four category keys. JavaScript's `in` would also accept inherited keys such as "toString".
- COVERAGE_TYPES labels and colours are constants (`DisplayLabel`, `DefaultColor`). Nothing is proved about the labels beyond what the colour rules use.
- AnnotationStore.EarliestIndex: `localeCompare` on `created_at` is modelled as ordinal code-unit order (`Strings.StrLt`). The two agree on the ISO timestamps the database produces, but not on arbitrary strings.
- The sort in selectHighlight is modelled as "the first member with the smallest creation time". A stable sort puts exactly that member first.
- AnnotationStore.Store: zustand's `set` merging, subscriptions and React re-rendering are not modelled. Each action is one atomic update of the fields.
- The store's profiles and comments are held but have no logic of their own beyond set, add and remove.
- TextSelection: the DOM is abstracted into a `MouseUp` record. It holds the enclosing section elements, the container's section list and the measured text lengths. Left out are:
  - `window.getSelection`;
  - `findSectionContainer`'s walk up the parent chain;
  - `createRange` and `toString`;
  - the bounding rectangle;
  - the document listener registration.
- DownloadMedia: `fetch`, client-zip, Blob and object-URL handling, the download link and `lastModified` dates are left out.
- DownloadMedia.CancelPoint: the asynchronous interleaving of the user's cancel with the download is reduced to the points at which the abort is observed. These are while signing, before a file, during a fetch, and during zipping.
- DownloadMedia.Downloader.StartDownload sets `state` once, to the last state of the reported sequence. The intermediate states are returned as that sequence instead of being written to the field one by one. A cancel that interleaves with the running download is only modelled through its `CancelPoint`.
- A failure inside client-zip other than an aborted fetch is not modelled.
- The hook returns without a final state when an abort is observed at an await (src/hooks/useDownloadAllMedia.ts:57,74,125). The model ends those runs in Cancelled, the state `cancel` has set.
- Middleware: the Supabase client, cookie reading and copying (src/middleware.ts:9-28, 53-55), and the route `matcher` (src/middleware.ts:88-92) are left out. The session calls are reduced to three booleans in `Session`.
- Middleware.Url: the request origin is kept unchanged by every redirect and is not modelled.
- Highlight offsets, file sizes and HTTP statuses are JavaScript numbers. They are modelled as unbounded integers; fractional or non-finite values are not considered.
