/**
 * The client annotation cache (src/hooks/useAnnotationStore.ts): the loaded
 * highlights, their media attachments, the media library and the UI selection,
 * with the actions that update them and the queries that read them.
 *
 * Every action of the store replaces some of its fields by values computed from
 * the current state. Each such update is written twice: as a pure transition on
 * a `StoreState` value (the `...Step` functions, about which the lemmas speak)
 * and as a method of the `Store` class that assigns the fields the way the
 * action does and is proved to land in the state the transition describes.
 */
module AnnotationStore {
  import opened Wrappers
  import opened Records
  import opened Seqs
  import opened Strings

  /** The loaded user profiles, keyed by user id. */
  datatype Profiles = Profiles(byId: map<string, Profile>)

  datatype SidebarTab = MediaTab | UploadTab | ReferenceTab

  /** Everything the store holds, as one value. */
  datatype StoreState = StoreState(
    highlights: seq<Highlight>,
    highlightMedia: seq<HighlightMedia>,
    sectionMedia: seq<SectionMedia>,
    mediaFiles: seq<MediaFile>,
    fileReferences: seq<FileReference>,
    comments: seq<HighlightComment>,
    profiles: Profiles,
    currentUserId: Option<string>,
    selectedHighlightId: Option<string>,
    selectedGroupId: Option<string>,
    selectedSectionId: Option<string>,
    sidebarOpen: bool,
    sidebarTab: SidebarTab)

  function Initial(): StoreState {
    StoreState([], [], [], [], [], [], Profiles(map[]), None, None, None, None, false, MediaTab)
  }

  // ---------------------------------------------------------------------------
  // Lookups shared by the actions
  // ---------------------------------------------------------------------------

  /** `highlights.find(h => h.id === id)`. */
  function FindHighlight(hs: seq<Highlight>, id: string): (r: Option<Highlight>)
    ensures r.Some? ==> r.value in hs && r.value.id == id
    ensures r.None? <==> forall h :: h in hs ==> h.id != id
  {
    FindFirst(hs, (h: Highlight) => h.id == id)
  }

  /** The group of the highlight with this id when that group id is truthy. */
  function GroupOf(hs: seq<Highlight>, id: string): (g: Option<string>)
    ensures g.Some? ==> g.value != "" && exists h :: h in hs && h.id == id && h.groupId == g
  {
    var found := FindHighlight(hs, id);
    if found.Some? && Truthy(found.value.groupId) then found.value.groupId else None
  }

  /** The highlights of a group, in list order. */
  function Members(hs: seq<Highlight>, g: string): seq<Highlight> {
    Filter(hs, (h: Highlight) => h.groupId == Some(g))
  }

  /** The ids of the highlights of a group. */
  function GroupIds(hs: seq<Highlight>, g: string): set<string> {
    set h | h in hs && h.groupId == Some(g) :: h.id
  }

  function WithoutIds(hs: seq<Highlight>, ids: set<string>): seq<Highlight> {
    Filter(hs, (h: Highlight) => h.id !in ids)
  }

  function MediaNotOn(rows: seq<HighlightMedia>, ids: set<string>): seq<HighlightMedia> {
    Filter(rows, (m: HighlightMedia) => m.highlightId !in ids)
  }

  /** The ids removeHighlight deletes: a grouped highlight's whole group, else the id alone. */
  function RemovedIds(hs: seq<Highlight>, id: string): set<string> {
    var g := GroupOf(hs, id);
    if g.Some? then GroupIds(hs, g.value) else {id}
  }

  /** No two highlights share an id, and no id is empty (database keys). */
  predicate ValidIds(hs: seq<Highlight>) {
    && (forall i, j :: 0 <= i < j < |hs| ==> hs[i].id != hs[j].id)
    && (forall i :: 0 <= i < |hs| ==> hs[i].id != "")
  }

  // ---------------------------------------------------------------------------
  // Invariants that some actions keep
  // ---------------------------------------------------------------------------

  /** Every highlight-media row belongs to a loaded highlight. */
  predicate Attached(s: StoreState) {
    forall m :: m in s.highlightMedia ==> exists h :: h in s.highlights && h.id == m.highlightId
  }

  predicate NamesFile(files: seq<MediaFile>, key: Option<string>) {
    key.Some? ==> exists f :: f in files && f.id == key.value
  }

  predicate NamesReference(refs: seq<FileReference>, key: Option<string>) {
    key.Some? ==> exists f :: f in refs && f.id == key.value
  }

  /** Every media row names an existing media file or file reference. */
  predicate Resolved(s: StoreState) {
    && (forall m :: m in s.highlightMedia ==> NamesFile(s.mediaFiles, m.mediaFileId) && NamesReference(s.fileReferences, m.fileReferenceId))
    && (forall m :: m in s.sectionMedia ==> NamesFile(s.mediaFiles, m.mediaFileId) && NamesReference(s.fileReferences, m.fileReferenceId))
  }

  /** A highlight and a section are never selected at the same time. */
  predicate SelectionExclusive(s: StoreState) {
    !(s.selectedHighlightId.Some? && s.selectedSectionId.Some?)
  }

  // ---------------------------------------------------------------------------
  // removeHighlight
  // ---------------------------------------------------------------------------

  function RemoveHighlightStep(s: StoreState, id: string): StoreState {
    var g := GroupOf(s.highlights, id);
    var ids := RemovedIds(s.highlights, id);
    s.(highlights := WithoutIds(s.highlights, ids),
       highlightMedia := MediaNotOn(s.highlightMedia, ids),
       selectedHighlightId := if s.selectedHighlightId.Some? && s.selectedHighlightId.value in ids then None else s.selectedHighlightId,
       selectedGroupId := if g.Some? && s.selectedGroupId == g then None else s.selectedGroupId)
  }

  /**
   * removeHighlight deletes the id (with its whole group when it has one) and
   * every media row of the deleted highlights, clears a selection that pointed at
   * them, and changes nothing else; an ungrouped or unknown id leaves the group
   * selection alone.
   */
  lemma RemoveHighlightEffect(s: StoreState, id: string)
    ensures var r := RemoveHighlightStep(s, id); var ids := RemovedIds(s.highlights, id);
            && id in ids
            && (forall h :: h in r.highlights <==> h in s.highlights && h.id !in ids)
            && (forall m :: m in r.highlightMedia <==> m in s.highlightMedia && m.highlightId !in ids)
            && (r.selectedHighlightId.Some? ==> r.selectedHighlightId.value !in ids)
            && (r.selectedHighlightId.Some? ==> r.selectedHighlightId == s.selectedHighlightId)
            && (GroupOf(s.highlights, id).None? ==> ids == {id} && r.selectedGroupId == s.selectedGroupId)
            && r.(highlights := s.highlights, highlightMedia := s.highlightMedia,
                  selectedHighlightId := s.selectedHighlightId, selectedGroupId := s.selectedGroupId) == s
  {
    var ids := RemovedIds(s.highlights, id);
    var g := GroupOf(s.highlights, id);
    if g.Some? {
      var h :| h in s.highlights && h.id == id && h.groupId == g;
      assert id in GroupIds(s.highlights, g.value);
    }
    FilterMembers(s.highlights, (h: Highlight) => h.id !in ids);
    FilterMembers(s.highlightMedia, (m: HighlightMedia) => m.highlightId !in ids);
  }

  /** Removing a grouped highlight removes every highlight of its group. */
  lemma RemoveHighlightRemovesGroup(s: StoreState, id: string)
    requires GroupOf(s.highlights, id).Some?
    ensures forall h :: h in RemoveHighlightStep(s, id).highlights ==> h.groupId != GroupOf(s.highlights, id)
  {
    var g := GroupOf(s.highlights, id).value;
    var ids := RemovedIds(s.highlights, id);
    FilterMembers(s.highlights, (h: Highlight) => h.id !in ids);
  }

  /** removeHighlight keeps every remaining media row attached to a loaded highlight. */
  lemma RemoveHighlightKeepsAttached(s: StoreState, id: string)
    requires Attached(s)
    ensures Attached(RemoveHighlightStep(s, id))
  {
    var r := RemoveHighlightStep(s, id);
    var ids := RemovedIds(s.highlights, id);
    FilterMembers(s.highlights, (h: Highlight) => h.id !in ids);
    FilterMembers(s.highlightMedia, (m: HighlightMedia) => m.highlightId !in ids);
    forall m | m in r.highlightMedia
      ensures exists h :: h in r.highlights && h.id == m.highlightId
    {
      var h :| h in s.highlights && h.id == m.highlightId;
      assert h in r.highlights;
    }
  }

  // ---------------------------------------------------------------------------
  // updateHighlightNote
  // ---------------------------------------------------------------------------

  /** `highlights.map(h => h.id === id ? { ...h, note } : h)`. */
  function WithNote(hs: seq<Highlight>, id: string, note: Option<string>): seq<Highlight> {
    seq(|hs|, i requires 0 <= i < |hs| => if hs[i].id == id then hs[i].(note := note) else hs[i])
  }

  function UpdateNoteStep(s: StoreState, id: string, note: Option<string>): StoreState {
    s.(highlights := WithNote(s.highlights, id, note))
  }

  /**
   * updateHighlightNote keeps the list's length and order and every field but
   * the note; the matching highlights get the new note, the others keep theirs.
   */
  lemma UpdateNoteEffect(s: StoreState, id: string, note: Option<string>)
    ensures var r := UpdateNoteStep(s, id, note);
            && |r.highlights| == |s.highlights|
            && (forall i :: 0 <= i < |s.highlights| ==>
                  r.highlights[i].(note := s.highlights[i].note) == s.highlights[i]
                  && r.highlights[i].note == (if s.highlights[i].id == id then note else s.highlights[i].note))
            && r.(highlights := s.highlights) == s
  {
  }

  /** Setting the same note twice is the same as setting it once. */
  lemma UpdateNoteIdempotent(s: StoreState, id: string, note: Option<string>)
    ensures UpdateNoteStep(UpdateNoteStep(s, id, note), id, note) == UpdateNoteStep(s, id, note)
  {
    var once := WithNote(s.highlights, id, note);
    var twice := WithNote(once, id, note);
    assert |twice| == |once|;
    forall i | 0 <= i < |once| ensures twice[i] == once[i] {
    }
    assert twice == once;
  }

  /** Editing a note keeps every media row attached. */
  lemma UpdateNoteKeepsAttached(s: StoreState, id: string, note: Option<string>)
    requires Attached(s)
    ensures Attached(UpdateNoteStep(s, id, note))
  {
    var r := UpdateNoteStep(s, id, note);
    forall m | m in r.highlightMedia
      ensures exists h :: h in r.highlights && h.id == m.highlightId
    {
      var h :| h in s.highlights && h.id == m.highlightId;
      var i :| 0 <= i < |s.highlights| && s.highlights[i] == h;
      assert r.highlights[i].id == h.id;
    }
  }

  // ---------------------------------------------------------------------------
  // removeMediaFile, removeFileReference
  // ---------------------------------------------------------------------------

  function RemoveMediaFileStep(s: StoreState, id: string): StoreState {
    s.(mediaFiles := Filter(s.mediaFiles, (f: MediaFile) => f.id != id),
       highlightMedia := Filter(s.highlightMedia, (m: HighlightMedia) => m.mediaFileId != Some(id)),
       sectionMedia := Filter(s.sectionMedia, (m: SectionMedia) => m.mediaFileId != Some(id)))
  }

  function RemoveFileReferenceStep(s: StoreState, id: string): StoreState {
    s.(fileReferences := Filter(s.fileReferences, (f: FileReference) => f.id != id),
       highlightMedia := Filter(s.highlightMedia, (m: HighlightMedia) => m.fileReferenceId != Some(id)),
       sectionMedia := Filter(s.sectionMedia, (m: SectionMedia) => m.fileReferenceId != Some(id)))
  }

  /**
   * removeMediaFile deletes the file and exactly the highlight and section rows
   * that point at it; nothing else changes.
   */
  lemma RemoveMediaFileEffect(s: StoreState, id: string)
    ensures var r := RemoveMediaFileStep(s, id);
            && (forall f :: f in r.mediaFiles <==> f in s.mediaFiles && f.id != id)
            && (forall m :: m in r.highlightMedia <==> m in s.highlightMedia && m.mediaFileId != Some(id))
            && (forall m :: m in r.sectionMedia <==> m in s.sectionMedia && m.mediaFileId != Some(id))
            && r.(mediaFiles := s.mediaFiles, highlightMedia := s.highlightMedia, sectionMedia := s.sectionMedia) == s
  {
    FilterMembers(s.mediaFiles, (f: MediaFile) => f.id != id);
    FilterMembers(s.highlightMedia, (m: HighlightMedia) => m.mediaFileId != Some(id));
    FilterMembers(s.sectionMedia, (m: SectionMedia) => m.mediaFileId != Some(id));
  }

  /**
   * removeFileReference deletes the reference and exactly the highlight and
   * section rows that point at it; nothing else changes.
   */
  lemma RemoveFileReferenceEffect(s: StoreState, id: string)
    ensures var r := RemoveFileReferenceStep(s, id);
            && (forall f :: f in r.fileReferences <==> f in s.fileReferences && f.id != id)
            && (forall m :: m in r.highlightMedia <==> m in s.highlightMedia && m.fileReferenceId != Some(id))
            && (forall m :: m in r.sectionMedia <==> m in s.sectionMedia && m.fileReferenceId != Some(id))
            && r.(fileReferences := s.fileReferences, highlightMedia := s.highlightMedia, sectionMedia := s.sectionMedia) == s
  {
    FilterMembers(s.fileReferences, (f: FileReference) => f.id != id);
    FilterMembers(s.highlightMedia, (m: HighlightMedia) => m.fileReferenceId != Some(id));
    FilterMembers(s.sectionMedia, (m: SectionMedia) => m.fileReferenceId != Some(id));
  }

  /** The cascade keeps every media row pointing at something that exists. */
  lemma RemoveMediaFileKeepsResolved(s: StoreState, id: string)
    requires Resolved(s)
    ensures Resolved(RemoveMediaFileStep(s, id))
  {
    var r := RemoveMediaFileStep(s, id);
    RemoveMediaFileEffect(s, id);
    forall key: Option<string> | NamesFile(s.mediaFiles, key) && key != Some(id)
      ensures NamesFile(r.mediaFiles, key)
    {
      if key.Some? {
        var f :| f in s.mediaFiles && f.id == key.value;
        assert f in r.mediaFiles;
      }
    }
  }

  /** The cascade keeps every media row pointing at something that exists. */
  lemma RemoveFileReferenceKeepsResolved(s: StoreState, id: string)
    requires Resolved(s)
    ensures Resolved(RemoveFileReferenceStep(s, id))
  {
    var r := RemoveFileReferenceStep(s, id);
    RemoveFileReferenceEffect(s, id);
    forall key: Option<string> | NamesReference(s.fileReferences, key) && key != Some(id)
      ensures NamesReference(r.fileReferences, key)
    {
      if key.Some? {
        var f :| f in s.fileReferences && f.id == key.value;
        assert f in r.fileReferences;
      }
    }
  }

  // ---------------------------------------------------------------------------
  // selectHighlight, selectSectionForMedia
  // ---------------------------------------------------------------------------

  /**
   * The first element of the group sorted by creation time: the least
   * `createdAt` under the ordinal order, the earliest in list order among equals
   * (the sort is stable).
   */
  function EarliestIndex(ms: seq<Highlight>): (k: nat)
    requires |ms| > 0
    ensures k < |ms|
    ensures forall j :: 0 <= j < |ms| ==> !StrLt(ms[j].createdAt, ms[k].createdAt)
    ensures forall j :: 0 <= j < k ==> StrLt(ms[k].createdAt, ms[j].createdAt)
    decreases |ms|
  {
    if |ms| == 1 then
      StrLtIrreflexive(ms[0].createdAt);
      0
    else
      var k := EarliestIndex(ms[1..]) + 1;
      if StrLt(ms[k].createdAt, ms[0].createdAt) then
        StrLtAsymmetric(ms[k].createdAt, ms[0].createdAt);
        k
      else
        NoneBelowEither(ms, k, ms[0].createdAt);
        StrLtIrreflexive(ms[0].createdAt);
        0
  }

  lemma StrLtAsymmetric(a: string, b: string)
    requires StrLt(a, b)
    ensures !StrLt(b, a)
  {
    if StrLt(b, a) {
      StrLtTransitive(a, b, a);
      StrLtIrreflexive(a);
    }
  }

  /** Nothing below the least of the tail is below a value the least is not above. */
  lemma NoneBelowEither(ms: seq<Highlight>, k: nat, x: string)
    requires 1 <= k < |ms|
    requires forall j :: 1 <= j < |ms| ==> !StrLt(ms[j].createdAt, ms[k].createdAt)
    requires !StrLt(ms[k].createdAt, x)
    ensures forall j :: 1 <= j < |ms| ==> !StrLt(ms[j].createdAt, x)
  {
    forall j | 1 <= j < |ms| ensures !StrLt(ms[j].createdAt, x) {
      if StrLt(ms[j].createdAt, x) {
        StrLtTotal(ms[j].createdAt, ms[k].createdAt);
        if StrLt(ms[k].createdAt, ms[j].createdAt) {
          StrLtTransitive(ms[k].createdAt, ms[j].createdAt, x);
        }
      }
    }
  }

  /** The id selectHighlight selects: the group's earliest member, else the id itself. */
  function PrimaryOf(hs: seq<Highlight>, id: string, groupId: Option<string>): string {
    if Truthy(groupId) then
      var ms := Members(hs, groupId.value);
      if |ms| > 0 then ms[EarliestIndex(ms)].id else id
    else id
  }

  /** `highlight?.group_id ?? null` for the highlight with this id. */
  function RawGroupOf(hs: seq<Highlight>, id: string): Option<string> {
    var found := FindHighlight(hs, id);
    if found.Some? then found.value.groupId else None
  }

  function SelectHighlightStep(s: StoreState, id: Option<string>, tab: Option<SidebarTab>): StoreState {
    if !Truthy(id) then
      s.(selectedHighlightId := None, selectedGroupId := None, selectedSectionId := None,
         sidebarOpen := false, sidebarTab := tab.GetOr(MediaTab))
    else
      var groupId := RawGroupOf(s.highlights, id.value);
      s.(selectedHighlightId := Some(PrimaryOf(s.highlights, id.value, groupId)),
         selectedGroupId := groupId, selectedSectionId := None,
         sidebarOpen := true, sidebarTab := tab.GetOr(MediaTab))
  }

  /**
   * selectHighlight touches only the selection and the sidebar: it clears the
   * section selection, sets the tab (the media tab by default) and opens the
   * sidebar exactly when given an id; with no id it clears both highlight
   * selections, and an id without a group selects that id itself.
   */
  lemma SelectHighlightEffect(s: StoreState, id: Option<string>, tab: Option<SidebarTab>)
    ensures var r := SelectHighlightStep(s, id, tab);
            && r.sidebarTab == tab.GetOr(MediaTab)
            && r.selectedSectionId.None?
            && r.sidebarOpen == Truthy(id)
            && (!Truthy(id) ==> r.selectedHighlightId.None? && r.selectedGroupId.None?)
            && (Truthy(id) && GroupOf(s.highlights, id.value).None? ==> r.selectedHighlightId == id)
            && r.(selectedHighlightId := s.selectedHighlightId, selectedGroupId := s.selectedGroupId,
                  selectedSectionId := s.selectedSectionId, sidebarOpen := s.sidebarOpen,
                  sidebarTab := s.sidebarTab) == s
  {
  }

  /**
   * Selecting a grouped highlight selects its group and the group member
   * created first: no member has an earlier creation time, and every member
   * before it in list order has a later one (the sort is stable).
   */
  lemma SelectHighlightPicksEarliest(s: StoreState, id: Option<string>, tab: Option<SidebarTab>)
    requires Truthy(id) && GroupOf(s.highlights, id.value).Some?
    ensures var r := SelectHighlightStep(s, id, tab);
            var g := GroupOf(s.highlights, id.value);
            var ms := Members(s.highlights, g.value);
            && r.selectedGroupId == g
            && exists k :: 0 <= k < |ms| && r.selectedHighlightId == Some(ms[k].id)
                 && (forall j :: 0 <= j < |ms| ==> !StrLt(ms[j].createdAt, ms[k].createdAt))
                 && (forall j :: 0 <= j < k ==> StrLt(ms[k].createdAt, ms[j].createdAt))
  {
    var r := SelectHighlightStep(s, id, tab);
    var g := GroupOf(s.highlights, id.value);
    var ms := Members(s.highlights, g.value);
    assert |ms| > 0 by {
      var h :| h in s.highlights && h.id == id.value && h.groupId == g;
      FilterMembers(s.highlights, (h: Highlight) => h.groupId == Some(g.value));
      assert h in ms;
    }
    var k := EarliestIndex(ms);
    assert r.selectedGroupId == g && r.selectedHighlightId == Some(ms[k].id) by {
      assert RawGroupOf(s.highlights, id.value) == g;
      assert PrimaryOf(s.highlights, id.value, g) == ms[k].id;
    }
  }

  /** With well-formed ids, the highlight of a highlight-id pair is the one with that id. */
  lemma FindUnique(hs: seq<Highlight>, h: Highlight)
    requires ValidIds(hs) && h in hs
    ensures FindHighlight(hs, h.id) == Some(h)
  {
    var i :| 0 <= i < |hs| && hs[i] == h;
  }

  /** The id selectHighlight settles on is non-empty, has the same group, and is its own primary. */
  lemma PrimaryIsFixed(hs: seq<Highlight>, id: string)
    requires ValidIds(hs) && id != ""
    ensures var groupId := RawGroupOf(hs, id); var p := PrimaryOf(hs, id, groupId);
            p != "" && RawGroupOf(hs, p) == groupId && PrimaryOf(hs, p, groupId) == p
  {
    var groupId := RawGroupOf(hs, id);
    if Truthy(groupId) && |Members(hs, groupId.value)| > 0 {
      var ms := Members(hs, groupId.value);
      var m := ms[EarliestIndex(ms)];
      FilterMembers(hs, (h: Highlight) => h.groupId == Some(groupId.value));
      assert m in ms;
      FindUnique(hs, m);
      assert m.id != "" by {
        var i :| 0 <= i < |hs| && hs[i] == m;
      }
    }
  }

  /**
   * Selecting the selected highlight again changes nothing: the primary member
   * of a group is its own primary. This needs database ids: unique and non-empty.
   */
  lemma SelectPrimaryIdempotent(s: StoreState, id: Option<string>, tab: Option<SidebarTab>)
    requires ValidIds(s.highlights)
    ensures var r := SelectHighlightStep(s, id, tab);
            SelectHighlightStep(r, r.selectedHighlightId, tab) == r
  {
    if Truthy(id) {
      PrimaryIsFixed(s.highlights, id.value);
    }
  }

  function SelectSectionStep(s: StoreState, id: Option<string>): StoreState {
    s.(selectedSectionId := id, selectedHighlightId := None, selectedGroupId := None,
       sidebarOpen := Truthy(id), sidebarTab := MediaTab)
  }

  // ---------------------------------------------------------------------------
  // closeSidebar
  // ---------------------------------------------------------------------------

  /** A "media" highlight: no label, an empty label, the label "media", or not found. */
  predicate IsMediaType(found: Option<Highlight>) {
    found.None? || !Truthy(found.value.labelKey) || found.value.labelKey == Some("media")
  }

  predicate HasMedia(rows: seq<HighlightMedia>, id: string) {
    exists m :: m in rows && m.highlightId == id
  }

  /** closeSidebar deletes the selected highlight: a media highlight without any media row. */
  predicate PrunesOnClose(s: StoreState) {
    && Truthy(s.selectedHighlightId)
    && IsMediaType(FindHighlight(s.highlights, s.selectedHighlightId.value))
    && !HasMedia(s.highlightMedia, s.selectedHighlightId.value)
  }

  /** The highlights left after closeSidebar. */
  function KeptOnClose(s: StoreState): seq<Highlight> {
    if PrunesOnClose(s) then WithoutIds(s.highlights, RemovedIds(s.highlights, s.selectedHighlightId.value))
    else s.highlights
  }

  function CloseSidebarStep(s: StoreState): StoreState {
    s.(highlights := KeptOnClose(s), sidebarOpen := false, selectedHighlightId := None, selectedGroupId := None,
       selectedSectionId := None)
  }

  /**
   * closeSidebar always closes the sidebar and clears the three selections; it
   * deletes the selected orphan media highlight (its whole group when grouped)
   * and nothing else; media rows are never touched.
   */
  lemma CloseSidebarEffect(s: StoreState)
    ensures var r := CloseSidebarStep(s);
            && !r.sidebarOpen
            && r.selectedHighlightId.None? && r.selectedGroupId.None? && r.selectedSectionId.None?
            && (!PrunesOnClose(s) ==> r.highlights == s.highlights)
            && (PrunesOnClose(s) ==>
                  var ids := RemovedIds(s.highlights, s.selectedHighlightId.value);
                  s.selectedHighlightId.value in ids
                  && forall h :: h in r.highlights <==> h in s.highlights && h.id !in ids)
            && r.(highlights := s.highlights, sidebarOpen := s.sidebarOpen,
                  selectedHighlightId := s.selectedHighlightId, selectedGroupId := s.selectedGroupId,
                  selectedSectionId := s.selectedSectionId) == s
  {
    if PrunesOnClose(s) {
      RemoveHighlightEffect(s, s.selectedHighlightId.value);
    }
  }

  /** Without a group to cascade to, closeSidebar keeps every media row attached. */
  lemma CloseSidebarUngroupedKeepsAttached(s: StoreState)
    requires Attached(s)
    requires s.selectedHighlightId.Some? ==> GroupOf(s.highlights, s.selectedHighlightId.value).None?
    ensures Attached(CloseSidebarStep(s))
  {
    var r := CloseSidebarStep(s);
    if PrunesOnClose(s) {
      var hId := s.selectedHighlightId.value;
      assert RemovedIds(s.highlights, hId) == {hId};
      FilterMembers(s.highlights, (h: Highlight) => h.id !in {hId});
      forall m | m in r.highlightMedia
        ensures exists h :: h in r.highlights && h.id == m.highlightId
      {
        var h :| h in s.highlights && h.id == m.highlightId;
        assert h.id != hId;
        assert h in r.highlights;
      }
    }
  }

  /**
   * The group cascade of closeSidebar removes the siblings but not their media
   * rows: a sibling's row is left pointing at a highlight that is gone.
   */
  lemma CloseSidebarOrphansSiblingMedia()
    ensures exists s :: Attached(s) && !Attached(CloseSidebarStep(s))
  {
    var a := Highlight("a", "sec", 0, 1, None, None, None, "2024-01-01", Some("g"));
    var b := Highlight("b", "sec", 2, 3, None, None, None, "2024-01-02", Some("g"));
    var row := HighlightMedia("m", "b", Some("f"), None);
    var s := Initial().(highlights := [a, b], highlightMedia := [row], selectedHighlightId := Some("a"));
    assert Attached(s) by {
      assert b in s.highlights;
    }
    assert FindHighlight(s.highlights, "a") == Some(a);
    assert !HasMedia(s.highlightMedia, "a");
    assert GroupOf(s.highlights, "a") == Some("g");
    assert RemovedIds(s.highlights, "a") == {"a", "b"};
    var r := CloseSidebarStep(s);
    FilterMembers(s.highlights, (h: Highlight) => h.id !in {"a", "b"});
    assert forall h :: h in r.highlights ==> h.id != "b";
    assert row in r.highlightMedia;
  }

  /** Every UI action leaves at most one of a highlight and a section selected. */
  lemma UiActionsKeepSelectionExclusive(s: StoreState, id: Option<string>, tab: Option<SidebarTab>, hid: string)
    ensures SelectionExclusive(SelectHighlightStep(s, id, tab))
    ensures SelectionExclusive(SelectSectionStep(s, id))
    ensures SelectionExclusive(CloseSidebarStep(s))
    ensures SelectionExclusive(s) ==> SelectionExclusive(RemoveHighlightStep(s, hid))
  {
  }

  // ---------------------------------------------------------------------------
  // getMediaForHighlight / getMediaForSection
  // ---------------------------------------------------------------------------

  /** What the media queries return. */
  datatype MediaView<E> = MediaView(uploaded: seq<MediaFile>, references: seq<FileReference>, entries: seq<E>)

  /**
   * `entries.filter(e => key(e)).map(e => items.find(x => idOf(x) === key(e))).filter(x => !!x)`:
   * each entry with a truthy key, resolved to the first item with that id,
   * dropping keys that resolve to nothing.
   */
  function Resolve<E, T>(entries: seq<E>, key: E -> Option<string>, items: seq<T>, idOf: T -> string): (r: seq<T>)
    ensures |r| <= |entries|
    ensures forall x :: x in r ==> x in items && idOf(x) != "" && exists e :: e in entries && key(e) == Some(idOf(x))
  {
    if |entries| == 0 then []
    else
      var init := Resolve(entries[..|entries| - 1], key, items, idOf);
      var e := entries[|entries| - 1];
      assert forall x :: x in init ==> exists e' :: e' in entries && key(e') == Some(idOf(x)) by {
        forall x | x in init ensures exists e' :: e' in entries && key(e') == Some(idOf(x)) {
          var e' :| e' in entries[..|entries| - 1] && key(e') == Some(idOf(x));
          assert e' in entries;
        }
      }
      init + ResolveOne(e, key, items, idOf)
  }

  /** One entry's contribution: its item, when its key is truthy and names one. */
  function ResolveOne<E, T>(e: E, key: E -> Option<string>, items: seq<T>, idOf: T -> string): (r: seq<T>)
    ensures |r| <= 1
    ensures forall x :: x in r ==> x in items && key(e) == Some(idOf(x)) && idOf(x) != ""
  {
    if Truthy(key(e)) then
      var found := FindFirst(items, (x: T) => idOf(x) == key(e).value);
      if found.Some? then [found.value] else []
    else []
  }

  /** Resolution works entry by entry: the result follows the order of the entries. */
  lemma {:induction false} ResolveAppend<E, T>(a: seq<E>, b: seq<E>, key: E -> Option<string>, items: seq<T>, idOf: T -> string)
    ensures Resolve(a + b, key, items, idOf) == Resolve(a, key, items, idOf) + Resolve(b, key, items, idOf)
    decreases |b|
  {
    if |b| == 0 {
      assert a + b == a;
    } else {
      var b' := b[..|b| - 1];
      assert (a + b)[..|a + b| - 1] == a + b';
      ResolveAppend(a, b', key, items, idOf);
    }
  }

  /** An entry whose truthy key names an item contributes the first item with that id. */
  lemma {:induction false} ResolveFinds<E, T>(entries: seq<E>, key: E -> Option<string>, items: seq<T>, idOf: T -> string, i: nat)
    requires i < |entries| && Truthy(key(entries[i]))
    requires exists x :: x in items && idOf(x) == key(entries[i]).value
    ensures FindFirst(items, (x: T) => idOf(x) == key(entries[i]).value).Some?
    ensures FindFirst(items, (x: T) => idOf(x) == key(entries[i]).value).value in Resolve(entries, key, items, idOf)
    decreases |entries|
  {
    var x :| x in items && idOf(x) == key(entries[i]).value;
    var j :| 0 <= j < |items| && items[j] == x;
    var found := FindFirst(items, (x: T) => idOf(x) == key(entries[i]).value);
    assert found.Some?;
    if i < |entries| - 1 {
      ResolveFinds(entries[..|entries| - 1], key, items, idOf, i);
    } else {
      assert ResolveOne(entries[i], key, items, idOf) == [found.value];
    }
  }

  /** When every entry's key is truthy and names an item, nothing is dropped. */
  lemma {:induction false} ResolveKeepsAll<E, T>(entries: seq<E>, key: E -> Option<string>, items: seq<T>, idOf: T -> string)
    requires forall e :: e in entries ==> Truthy(key(e)) && exists x :: x in items && idOf(x) == key(e).value
    ensures |Resolve(entries, key, items, idOf)| == |entries|
    decreases |entries|
  {
    if |entries| > 0 {
      var e := entries[|entries| - 1];
      ResolveKeepsAll(entries[..|entries| - 1], key, items, idOf);
      var x :| x in items && idOf(x) == key(e).value;
      var j :| 0 <= j < |items| && items[j] == x;
      assert FindFirst(items, (x: T) => idOf(x) == key(e).value).Some?;
    }
  }

  function FileKeyH(m: HighlightMedia): Option<string> { m.mediaFileId }
  function RefKeyH(m: HighlightMedia): Option<string> { m.fileReferenceId }
  function FileKeyS(m: SectionMedia): Option<string> { m.mediaFileId }
  function RefKeyS(m: SectionMedia): Option<string> { m.fileReferenceId }
  function FileId(f: MediaFile): string { f.id }
  function RefId(f: FileReference): string { f.id }

  /** getHighlightsForSection: the section's highlights, in list order. */
  function HighlightsForSection(s: StoreState, sectionId: string): (r: seq<Highlight>)
    ensures forall h :: h in r <==> h in s.highlights && h.sectionId == sectionId
  {
    FilterMembers(s.highlights, (h: Highlight) => h.sectionId == sectionId);
    Filter(s.highlights, (h: Highlight) => h.sectionId == sectionId)
  }

  /**
   * getMediaForHighlight: the highlight's rows in list order, and the files and
   * references they name, dangling ids dropped.
   */
  function MediaForHighlight(s: StoreState, highlightId: string): (v: MediaView<HighlightMedia>)
    ensures forall e :: e in v.entries <==> e in s.highlightMedia && e.highlightId == highlightId
    ensures |v.uploaded| <= |v.entries| && |v.references| <= |v.entries|
    ensures forall f :: f in v.uploaded ==> f in s.mediaFiles && exists e :: e in v.entries && e.mediaFileId == Some(f.id)
    ensures forall f :: f in v.references ==> f in s.fileReferences && exists e :: e in v.entries && e.fileReferenceId == Some(f.id)
  {
    var entries := Filter(s.highlightMedia, (m: HighlightMedia) => m.highlightId == highlightId);
    FilterMembers(s.highlightMedia, (m: HighlightMedia) => m.highlightId == highlightId);
    MediaView(Resolve(entries, FileKeyH, s.mediaFiles, FileId), Resolve(entries, RefKeyH, s.fileReferences, RefId), entries)
  }

  /**
   * getMediaForSection: the section's rows in list order, and the files and
   * references they name, dangling ids dropped.
   */
  function MediaForSection(s: StoreState, sectionId: string): (v: MediaView<SectionMedia>)
    ensures forall e :: e in v.entries <==> e in s.sectionMedia && e.sectionId == sectionId
    ensures |v.uploaded| <= |v.entries| && |v.references| <= |v.entries|
    ensures forall f :: f in v.uploaded ==> f in s.mediaFiles && exists e :: e in v.entries && e.mediaFileId == Some(f.id)
    ensures forall f :: f in v.references ==> f in s.fileReferences && exists e :: e in v.entries && e.fileReferenceId == Some(f.id)
  {
    var entries := Filter(s.sectionMedia, (m: SectionMedia) => m.sectionId == sectionId);
    FilterMembers(s.sectionMedia, (m: SectionMedia) => m.sectionId == sectionId);
    MediaView(Resolve(entries, FileKeyS, s.mediaFiles, FileId), Resolve(entries, RefKeyS, s.fileReferences, RefId), entries)
  }

  // ---------------------------------------------------------------------------
  // The store object
  // ---------------------------------------------------------------------------

  class Store {
    var highlights: seq<Highlight>
    var highlightMedia: seq<HighlightMedia>
    var sectionMedia: seq<SectionMedia>
    var mediaFiles: seq<MediaFile>
    var fileReferences: seq<FileReference>
    var comments: seq<HighlightComment>
    var profiles: Profiles
    var currentUserId: Option<string>
    var selectedHighlightId: Option<string>
    var selectedGroupId: Option<string>
    var selectedSectionId: Option<string>
    var sidebarOpen: bool
    var sidebarTab: SidebarTab

    function State(): StoreState
      reads this
    {
      StoreState(highlights, highlightMedia, sectionMedia, mediaFiles, fileReferences, comments, profiles,
                 currentUserId, selectedHighlightId, selectedGroupId, selectedSectionId, sidebarOpen, sidebarTab)
    }

    constructor ()
      ensures State() == Initial()
    {
      highlights, highlightMedia, sectionMedia := [], [], [];
      mediaFiles, fileReferences, comments := [], [], [];
      profiles, currentUserId := Profiles(map[]), None;
      selectedHighlightId, selectedGroupId, selectedSectionId := None, None, None;
      sidebarOpen, sidebarTab := false, MediaTab;
    }

    // --- data actions ------------------------------------------------------

    method SetHighlights(hs: seq<Highlight>)
      modifies this
      ensures State() == old(State()).(highlights := hs)
    {
      highlights := hs;
    }

    method AddHighlight(h: Highlight)
      modifies this
      ensures State() == old(State()).(highlights := old(highlights) + [h])
    {
      highlights := highlights + [h];
    }

    /** The ids removeHighlight deletes, and the truthy group it deletes them for. */
    method RemovalOf(id: string) returns (removed: set<string>, group: Option<string>)
      ensures removed == RemovedIds(highlights, id) && group == GroupOf(highlights, id)
    {
      var highlight := FindHighlight(highlights, id);
      var groupId := if highlight.Some? then highlight.value.groupId else None;
      if Truthy(groupId) {
        removed := GroupIds(highlights, groupId.value);
        group := groupId;
      } else {
        removed, group := {id}, None;
      }
    }

    method RemoveHighlight(id: string)
      modifies this
      ensures State() == RemoveHighlightStep(old(State()), id)
    {
      ghost var target := RemoveHighlightStep(State(), id);
      var removed, group := RemovalOf(id);
      var groupSelection := if group.Some? && selectedGroupId == group then None else selectedGroupId;
      var selection := if selectedHighlightId.Some? && selectedHighlightId.value in removed then None else selectedHighlightId;
      var kept, keptMedia := WithoutIds(highlights, removed), MediaNotOn(highlightMedia, removed);
      assert kept == target.highlights && keptMedia == target.highlightMedia;
      assert selection == target.selectedHighlightId && groupSelection == target.selectedGroupId;
      highlights, highlightMedia := kept, keptMedia;
      selectedHighlightId, selectedGroupId := selection, groupSelection;
    }

    method UpdateHighlightNote(id: string, note: Option<string>)
      modifies this
      ensures State() == UpdateNoteStep(old(State()), id, note)
    {
      highlights := WithNote(highlights, id, note);
    }

    method SetHighlightMedia(media: seq<HighlightMedia>)
      modifies this
      ensures State() == old(State()).(highlightMedia := media)
    {
      highlightMedia := media;
    }

    method AddHighlightMedia(media: HighlightMedia)
      modifies this
      ensures State() == old(State()).(highlightMedia := old(highlightMedia) + [media])
    {
      highlightMedia := highlightMedia + [media];
    }

    method RemoveHighlightMedia(id: string)
      modifies this
      ensures highlightMedia == Filter(old(highlightMedia), (m: HighlightMedia) => m.id != id)
      ensures forall m :: m in highlightMedia <==> m in old(highlightMedia) && m.id != id
      ensures State() == old(State()).(highlightMedia := highlightMedia)
    {
      FilterMembers(highlightMedia, (m: HighlightMedia) => m.id != id);
      highlightMedia := Filter(highlightMedia, (m: HighlightMedia) => m.id != id);
    }

    method SetSectionMedia(media: seq<SectionMedia>)
      modifies this
      ensures State() == old(State()).(sectionMedia := media)
    {
      sectionMedia := media;
    }

    method AddSectionMedia(media: SectionMedia)
      modifies this
      ensures State() == old(State()).(sectionMedia := old(sectionMedia) + [media])
    {
      sectionMedia := sectionMedia + [media];
    }

    method RemoveSectionMedia(id: string)
      modifies this
      ensures sectionMedia == Filter(old(sectionMedia), (m: SectionMedia) => m.id != id)
      ensures forall m :: m in sectionMedia <==> m in old(sectionMedia) && m.id != id
      ensures State() == old(State()).(sectionMedia := sectionMedia)
    {
      FilterMembers(sectionMedia, (m: SectionMedia) => m.id != id);
      sectionMedia := Filter(sectionMedia, (m: SectionMedia) => m.id != id);
    }

    method SetMediaFiles(files: seq<MediaFile>)
      modifies this
      ensures State() == old(State()).(mediaFiles := files)
    {
      mediaFiles := files;
    }

    method AddMediaFile(file: MediaFile)
      modifies this
      ensures State() == old(State()).(mediaFiles := old(mediaFiles) + [file])
    {
      mediaFiles := mediaFiles + [file];
    }

    method RemoveMediaFile(id: string)
      modifies this
      ensures State() == RemoveMediaFileStep(old(State()), id)
    {
      mediaFiles := Filter(mediaFiles, (f: MediaFile) => f.id != id);
      highlightMedia := Filter(highlightMedia, (m: HighlightMedia) => m.mediaFileId != Some(id));
      sectionMedia := Filter(sectionMedia, (m: SectionMedia) => m.mediaFileId != Some(id));
    }

    method SetFileReferences(refs: seq<FileReference>)
      modifies this
      ensures State() == old(State()).(fileReferences := refs)
    {
      fileReferences := refs;
    }

    method AddFileReference(ref: FileReference)
      modifies this
      ensures State() == old(State()).(fileReferences := old(fileReferences) + [ref])
    {
      fileReferences := fileReferences + [ref];
    }

    method RemoveFileReference(id: string)
      modifies this
      ensures State() == RemoveFileReferenceStep(old(State()), id)
    {
      fileReferences := Filter(fileReferences, (f: FileReference) => f.id != id);
      highlightMedia := Filter(highlightMedia, (m: HighlightMedia) => m.fileReferenceId != Some(id));
      sectionMedia := Filter(sectionMedia, (m: SectionMedia) => m.fileReferenceId != Some(id));
    }

    method SetComments(cs: seq<HighlightComment>)
      modifies this
      ensures State() == old(State()).(comments := cs)
    {
      comments := cs;
    }

    method AddComment(c: HighlightComment)
      modifies this
      ensures State() == old(State()).(comments := old(comments) + [c])
    {
      comments := comments + [c];
    }

    method RemoveComment(id: string)
      modifies this
      ensures comments == Filter(old(comments), (c: HighlightComment) => c.id != id)
      ensures forall c :: c in comments <==> c in old(comments) && c.id != id
      ensures State() == old(State()).(comments := comments)
    {
      FilterMembers(comments, (c: HighlightComment) => c.id != id);
      comments := Filter(comments, (c: HighlightComment) => c.id != id);
    }

    method SetProfiles(ps: map<string, Profile>)
      modifies this
      ensures State() == old(State()).(profiles := Profiles(ps))
    {
      profiles := Profiles(ps);
    }

    method SetCurrentUserId(id: Option<string>)
      modifies this
      ensures State() == old(State()).(currentUserId := id)
    {
      currentUserId := id;
    }

    // --- UI actions --------------------------------------------------------

    /** The highlight and group selectHighlight selects for a truthy id. */
    method SelectionFor(id: string) returns (primary: string, group: Option<string>)
      ensures group == RawGroupOf(highlights, id) && primary == PrimaryOf(highlights, id, group)
    {
      var highlight := FindHighlight(highlights, id);
      group := if highlight.Some? then highlight.value.groupId else None;
      primary := id;
      if Truthy(group) {
        var groupMembers := Members(highlights, group.value);
        if |groupMembers| > 0 {
          primary := groupMembers[EarliestIndex(groupMembers)].id;
        }
      }
    }

    method SelectHighlight(id: Option<string>, tab: Option<SidebarTab>)
      modifies this
      ensures State() == SelectHighlightStep(old(State()), id, tab)
    {
      ghost var target := SelectHighlightStep(State(), id, tab);
      var selection, group, open := None, None, false;
      if Truthy(id) {
        var primary;
        primary, group := SelectionFor(id.value);
        selection, open := Some(primary), true;
      }
      assert target == State().(selectedHighlightId := selection, selectedGroupId := group, selectedSectionId := None,
                                sidebarOpen := open, sidebarTab := tab.GetOr(MediaTab));
      selectedHighlightId, selectedGroupId, selectedSectionId := selection, group, None;
      sidebarOpen, sidebarTab := open, tab.GetOr(MediaTab);
    }

    method SelectSectionForMedia(id: Option<string>)
      modifies this
      ensures State() == SelectSectionStep(old(State()), id)
    {
      selectedSectionId, selectedHighlightId, selectedGroupId := id, None, None;
      sidebarOpen, sidebarTab := Truthy(id), MediaTab;
    }

    method OpenSidebar()
      modifies this
      ensures State() == old(State()).(sidebarOpen := true)
    {
      sidebarOpen := true;
    }

    method SetSidebarTab(tab: SidebarTab)
      modifies this
      ensures State() == old(State()).(sidebarTab := tab)
    {
      sidebarTab := tab;
    }

    /** The highlights closeSidebar keeps: all but the selected orphan media highlight (and its group). */
    method HighlightsKeptOnClose() returns (kept: seq<Highlight>)
      ensures kept == KeptOnClose(State())
    {
      kept := highlights;
      var hId := selectedHighlightId;
      if Truthy(hId) {
        var highlight := FindHighlight(highlights, hId.value);
        var isMediaType := highlight.None? || !Truthy(highlight.value.labelKey) || highlight.value.labelKey == Some("media");
        var hasMedia := exists m :: m in highlightMedia && m.highlightId == hId.value;
        if isMediaType && !hasMedia {
          var groupId := if highlight.Some? then highlight.value.groupId else None;
          var removed := if Truthy(groupId) then GroupIds(highlights, groupId.value) else {hId.value};
          assert removed == RemovedIds(highlights, hId.value);
          kept := WithoutIds(highlights, removed);
        }
      }
    }

    method CloseSidebar()
      modifies this
      ensures State() == CloseSidebarStep(old(State()))
    {
      var kept := HighlightsKeptOnClose();
      highlights := kept;
      sidebarOpen, selectedHighlightId, selectedGroupId, selectedSectionId := false, None, None, None;
    }
  }
}
