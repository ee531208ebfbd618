/**
 * The download-all-media helpers of src/hooks/useDownloadAllMedia.ts: the size
 * and count summary, the per-name de-duplication of file names, the manifest of
 * file references, the sanitised ZIP name, and the status the hook reports
 * while one download runs. Network, ZIP encoding and the browser download are
 * abstracted: a run is driven by what the signing action and each fetch answer
 * and by where, if anywhere, the user cancels.
 */
module DownloadMedia {
  import opened Wrappers
  import opened Records
  import opened Strings

  // ---------------------------------------------------------------------------
  // totalSizeBytes, fileCount
  // ---------------------------------------------------------------------------

  /** `mediaFiles.reduce((sum, f) => sum + f.size_bytes, 0)`. */
  function TotalSizeBytes(files: seq<MediaFile>): int {
    if |files| == 0 then 0 else TotalSizeBytes(files[..|files| - 1]) + files[|files| - 1].sizeBytes
  }

  function FileCount(files: seq<MediaFile>): nat
  {
    |files|
  }

  /** The total of two lists is the sum of their totals. */
  lemma {:induction false} TotalSizeAppend(a: seq<MediaFile>, b: seq<MediaFile>)
    ensures TotalSizeBytes(a + b) == TotalSizeBytes(a) + TotalSizeBytes(b)
    decreases |b|
  {
    if |b| == 0 {
      assert a + b == a;
    } else {
      var b0 := b[..|b| - 1];
      assert (a + b)[..|a + b| - 1] == a + b0;
      assert (a + b)[|a + b| - 1] == b[|b| - 1];
      TotalSizeAppend(a, b0);
    }
  }

  /** With sizes that are never negative, the total is at least every single size and never negative. */
  lemma {:induction false} TotalSizeBounds(files: seq<MediaFile>)
    requires forall i :: 0 <= i < |files| ==> files[i].sizeBytes >= 0
    ensures TotalSizeBytes(files) >= 0
    ensures forall i :: 0 <= i < |files| ==> files[i].sizeBytes <= TotalSizeBytes(files)
    decreases |files|
  {
    if |files| > 0 {
      var init := files[..|files| - 1];
      TotalSizeBounds(init);
      forall i | 0 <= i < |files| ensures files[i].sizeBytes <= TotalSizeBytes(files) {
        if i < |init| { assert files[i] == init[i]; }
      }
    }
  }

  // ---------------------------------------------------------------------------
  // File-name de-duplication
  // ---------------------------------------------------------------------------

  /** How many times `name` occurs in `names`. */
  function Occurrences(names: seq<string>, name: string): nat {
    if |names| == 0 then 0
    else Occurrences(names[..|names| - 1], name) + (if names[|names| - 1] == name then 1 else 0)
  }

  /** A name occurs zero times exactly when it is absent. */
  lemma {:induction false} OccurrencesZero(names: seq<string>, name: string)
    ensures Occurrences(names, name) == 0 <==> name !in names
    decreases |names|
  {
    if |names| > 0 {
      var init := names[..|names| - 1];
      OccurrencesZero(init, name);
      assert names == init + [names[|names| - 1]];
    }
  }

  /** The marker " (k)" a repeated name receives. */
  function Marker(count: nat): string {
    " (" + Decimal(count) + ")"
  }

  /** The name given to the `count`-th repeat of `name`: the marker before the last ".", or at the end. */
  function Renamed(name: string, count: nat): string {
    if count == 0 then name
    else
      var ext := LastIndexOf(name, '.');
      if ext == -1 then name + Marker(count) else name[..ext] + Marker(count) + name[ext..]
  }

  /**
   * The marker of repeat `count` sits at position `e` of `name`: at its last "."
   * (so the extension is kept) or, when there is no ".", at the end.
   */
  ghost predicate MarkedAt(name: string, count: nat, e: nat) {
    && e <= |name|
    && Renamed(name, count) == name[..e] + Marker(count) + name[e..]
    && (if e == |name| then '.' !in name else name[e] == '.' && '.' !in name[e + 1..])
  }

  /** Nothing after the last occurrence of `c` is `c`. */
  lemma AfterLast(s: string, k: nat, c: char)
    requires k < |s| && forall j :: k < j < |s| ==> s[j] != c
    ensures c !in s[k + 1..]
  {
    var t := s[k + 1..];
    forall j | 0 <= j < |t| ensures t[j] != c {
      assert t[j] == s[k + 1 + j];
    }
  }

  /** A first occurrence is unchanged; a repeat keeps the whole name and gains its marker. */
  lemma RenamedShape(name: string, count: nat)
    ensures count == 0 ==> Renamed(name, count) == name
    ensures count > 0 ==> exists e :: MarkedAt(name, count, e)
  {
    if count > 0 {
      var ext := LastIndexOf(name, '.');
      if ext == -1 {
        var e := |name|;
        assert name[..e] == name && name[e..] == [];
        assert MarkedAt(name, count, e);
      } else {
        AfterLast(name, ext, '.');
        assert MarkedAt(name, count, ext);
      }
    }
  }

  /** The names the de-duplication produces, in input order: each name renamed by how often it came before. */
  function UniqueNames(names: seq<string>): (r: seq<string>)
    ensures |r| == |names|
  {
    if |names| == 0 then []
    else
      var init := names[..|names| - 1];
      UniqueNames(init) + [Renamed(names[|names| - 1], Occurrences(init, names[|names| - 1]))]
  }

  /** Position by position: the i-th name is renamed by how often it occurs before position i. */
  lemma {:induction false} UniqueNamesAt(names: seq<string>)
    ensures forall i :: 0 <= i < |names| ==> UniqueNames(names)[i] == Renamed(names[i], Occurrences(names[..i], names[i]))
    decreases |names|
  {
    if |names| > 0 {
      var init := names[..|names| - 1];
      UniqueNamesAt(init);
      forall i | 0 <= i < |names| ensures UniqueNames(names)[i] == Renamed(names[i], Occurrences(names[..i], names[i])) {
        if i < |init| {
          assert init[..i] == names[..i] && init[i] == names[i];
        } else {
          assert names[..i] == init;
        }
      }
    }
  }

  /** The first occurrence of each name is kept as it is; every later one is renamed. */
  lemma FirstOccurrenceKept(names: seq<string>, i: nat)
    requires i < |names|
    ensures names[i] !in names[..i] ==> UniqueNames(names)[i] == names[i]
    ensures names[i] in names[..i] ==> |UniqueNames(names)[i]| > |names[i]|
  {
    UniqueNamesAt(names);
    OccurrencesZero(names[..i], names[i]);
    RenamedShape(names[i], Occurrences(names[..i], names[i]));
  }

  /** The counts are kept per original name, so the results need not be distinct. */
  lemma NamesNeedNotBeUnique()
    ensures UniqueNames(["a (1).txt", "a.txt", "a.txt"]) == ["a (1).txt", "a.txt", "a (1).txt"]
  {
    var names := ["a (1).txt", "a.txt", "a.txt"];
    UniqueNamesAt(names);
    assert names[..0] == [] && names[..1] == ["a (1).txt"] && names[..2] == ["a (1).txt", "a.txt"];
    assert Occurrences(["a (1).txt"], "a.txt") == 0 by {
      assert ["a (1).txt"][..0] == [];
    }
    assert Occurrences(["a (1).txt", "a.txt"], "a.txt") == 1 by {
      assert ["a (1).txt", "a.txt"][..1] == ["a (1).txt"];
      assert ["a (1).txt"][..0] == [];
    }
    assert LastIndexOf("a.txt", '.') == 1 by {
      assert "a.txt"[..4] == "a.tx" && "a.tx"[..3] == "a.t" && "a.t"[..2] == "a.";
    }
    assert Decimal(1) == "1";
    assert "a.txt"[..1] + Marker(1) + "a.txt"[1..] == "a (1).txt";
  }

  function CountOf(counts: map<string, nat>, name: string): nat {
    if name in counts then counts[name] else 0
  }

  /** The `uniqueNames` map: a running `nameCount` per original name. */
  method DedupNames(names: seq<string>) returns (out: seq<string>)
    ensures out == UniqueNames(names)
  {
    var nameCount: map<string, nat> := map[];
    out := [];
    var i := 0;
    while i < |names|
      invariant 0 <= i <= |names|
      invariant out == UniqueNames(names[..i])
      invariant forall n :: CountOf(nameCount, n) == Occurrences(names[..i], n)
    {
      var name := names[i];
      var count := CountOf(nameCount, name);
      nameCount := nameCount[name := count + 1];
      var unique := Renamed(name, count);
      assert names[..i + 1][..i] == names[..i] && names[..i + 1][i] == name;
      out := out + [unique];
      i := i + 1;
    }
    assert names[..|names|] == names;
  }

  // ---------------------------------------------------------------------------
  // The references manifest
  // ---------------------------------------------------------------------------

  function TypeName(t: FileType): string {
    match t
    case Video => "video"
    case Image => "image"
    case Audio => "audio"
    case Other => "other"
  }

  /** One reference in the manifest: "- name", its type unless "other", then its location and description lines. */
  function ManifestEntry(r: FileReference): string {
    "- " + r.filename
    + (if r.fileType != Other then " [" + TypeName(r.fileType) + "]" else "")
    + (if Truthy(r.location) then "\n  Location: " + r.location.value else "")
    + (if Truthy(r.description) then "\n  Description: " + r.description.value else "")
  }

  /** `parts.join(sep)` for a separator string. */
  function JoinWith(parts: seq<string>, sep: string): string {
    if |parts| == 0 then []
    else if |parts| == 1 then parts[0]
    else JoinWith(parts[..|parts| - 1], sep) + sep + parts[|parts| - 1]
  }

  /** One manifest entry per reference, in the order of the references. */
  function Entries(refs: seq<FileReference>): (r: seq<string>)
    ensures |r| == |refs|
    ensures forall k :: 0 <= k < |refs| ==> r[k] == ManifestEntry(refs[k])
  {
    if |refs| == 0 then [] else Entries(refs[..|refs| - 1]) + [ManifestEntry(refs[|refs| - 1])]
  }

  /** Joining adds exactly one separator between neighbours. */
  lemma {:induction false} JoinWithLength(parts: seq<string>, sep: string)
    requires |parts| >= 1
    ensures |JoinWith(parts, sep)| == TotalLength(parts) + (|parts| - 1) * |sep|
    decreases |parts|
  {
    if |parts| > 1 {
      JoinWithLength(parts[..|parts| - 1], sep);
    }
  }

  function TotalLength(parts: seq<string>): nat {
    if |parts| == 0 then 0 else TotalLength(parts[..|parts| - 1]) + |parts[|parts| - 1]|
  }

  /** Every entry starts with "- " and the file name, and is exactly that when the reference has no type, location or description. */
  lemma ManifestEntryStart(r: FileReference)
    ensures StartsWith(ManifestEntry(r), "- " + r.filename)
    ensures r.fileType == Other && !Truthy(r.location) && !Truthy(r.description) ==> ManifestEntry(r) == "- " + r.filename
  {
    var head := "- " + r.filename;
    var e := ManifestEntry(r);
    assert e == head + e[|head|..];
    assert e[..|head|] == head;
  }

  const ManifestName: string := "_file_references.txt"

  /** The heading of the manifest file: a title line and 44 "=". */
  function ManifestHeader(): string {
    "File References (not included in ZIP)\n" + Rule() + "\n\n"
  }

  /** The rule under the manifest's title: 44 "=". */
  function Rule(): (r: string)
    ensures |r| == 44 && forall i :: 0 <= i < |r| ==> r[i] == '='
  {
    "============================================"
  }

  datatype Source = Fetched(url: string) | Text(body: string)

  datatype ZipEntry = ZipEntry(name: string, source: Source)

  /** The manifest file, present only when there are references. */
  function ManifestFile(refs: seq<FileReference>): (r: Option<ZipEntry>)
    ensures r.None? <==> |refs| == 0
    ensures r.Some? ==> r.value.name == ManifestName && r.value.source.Text?
  {
    if |refs| == 0 then None
    else Some(ZipEntry(ManifestName, Text(ManifestHeader() + JoinWith(Entries(refs), "\n\n") + "\n")))
  }

  /** Two references: their entries separated by one empty line, under the heading. */
  lemma ManifestExample(a: FileReference, b: FileReference)
    ensures ManifestFile([a, b]) ==
            Some(ZipEntry(ManifestName, Text(ManifestHeader() + ManifestEntry(a) + "\n\n" + ManifestEntry(b) + "\n")))
  {
    assert [a, b][..1] == [a] && [a][..0] == [];
    assert Entries([a, b]) == [ManifestEntry(a), ManifestEntry(b)];
    assert [ManifestEntry(a), ManifestEntry(b)][..1] == [ManifestEntry(a)];
    var ea, eb, h := ManifestEntry(a), ManifestEntry(b), ManifestHeader();
    assert JoinWith([ea, eb], "\n\n") == ea + "\n\n" + eb;
    assert h + (ea + "\n\n" + eb) + "\n" == h + ea + "\n\n" + eb + "\n";
  }

  // ---------------------------------------------------------------------------
  // The ZIP name
  // ---------------------------------------------------------------------------

  /** The characters the title keeps: ASCII letters and digits, `\s`, "-" and "_". */
  predicate Allowed(c: char) {
    ('a' <= c <= 'z') || ('A' <= c <= 'Z') || ('0' <= c <= '9') || IsWhitespace(c) || c == '-' || c == '_'
  }

  /** `replace(/[^a-zA-Z0-9\s\-_]/g, "")`. */
  function StripDisallowed(s: string): (r: string)
    ensures |r| <= |s|
    ensures forall i :: 0 <= i < |r| ==> Allowed(r[i])
  {
    if |s| == 0 then []
    else StripDisallowed(s[..|s| - 1]) + (if Allowed(s[|s| - 1]) then [s[|s| - 1]] else [])
  }

  /** A single character is kept exactly when it is allowed. */
  lemma StripOne(c: char)
    ensures StripDisallowed([c]) == (if Allowed(c) then [c] else [])
  {
    assert [c][..0] == [];
  }

  /** Stripping works character by character: it distributes over concatenation. */
  lemma {:induction false} StripAppend(a: string, b: string)
    ensures StripDisallowed(a + b) == StripDisallowed(a) + StripDisallowed(b)
    decreases |b|
  {
    if |b| == 0 {
      assert a + b == a;
    } else {
      var b0 := b[..|b| - 1];
      assert (a + b)[..|a + b| - 1] == a + b0;
      assert (a + b)[|a + b| - 1] == b[|b| - 1];
      StripAppend(a, b0);
    }
  }

  /** Removing disallowed characters from a string with none leaves it unchanged. */
  lemma {:induction false} StripAllowed(s: string)
    requires forall i :: 0 <= i < |s| ==> Allowed(s[i])
    ensures StripDisallowed(s) == s
    decreases |s|
  {
    if |s| > 0 {
      StripAllowed(s[..|s| - 1]);
      assert s == s[..|s| - 1] + [s[|s| - 1]];
    }
  }

  /** The stripped, trimmed title, or "project" when nothing is left. */
  function SafeName(title: string): (r: string)
    ensures r != [] && IsTrimmed(r)
    ensures forall i :: 0 <= i < |r| ==> Allowed(r[i])
    ensures AllWhitespace(StripDisallowed(title)) ==> r == "project"
    ensures !AllWhitespace(StripDisallowed(title)) ==> r == Trim(StripDisallowed(title))
  {
    var stripped := StripDisallowed(title);
    var t := Trim(stripped);
    TrimKeepsAllowed(stripped);
    if t == [] then "project" else t
  }

  /** Trimming keeps only characters of the string it trims. */
  lemma TrimKeepsAllowed(s: string)
    requires forall i :: 0 <= i < |s| ==> Allowed(s[i])
    ensures forall i :: 0 <= i < |Trim(s)| ==> Allowed(Trim(s)[i])
  {
    var a, b := TrimBounds(s);
    assert forall i :: 0 <= i < |Trim(s)| ==> Trim(s)[i] == s[a + i];
  }

  /** A title that is already safe is its own safe name; so sanitising twice changes nothing. */
  lemma SafeNameOfSafe(title: string)
    requires title != [] && IsTrimmed(title) && forall i :: 0 <= i < |title| ==> Allowed(title[i])
    ensures SafeName(title) == title
  {
    StripAllowed(title);
    TrimOfTrimmed(title);
  }

  lemma SafeNameIdempotent(title: string)
    ensures SafeName(SafeName(title)) == SafeName(title)
  {
    SafeNameOfSafe(SafeName(title));
  }

  /** The name of the downloaded archive. */
  function ZipName(title: string): string
  {
    SafeName(title) + " - Media.zip"
  }

  // ---------------------------------------------------------------------------
  // The download status
  // ---------------------------------------------------------------------------

  datatype DownloadState =
    | Idle
    | Preparing
    | Downloading(completed: nat, total: nat, currentFile: string)
    | Complete
    | Error(message: string)
    | Cancelled

  /** A file the signing action returned, with the HTTP status its fetch answers with. */
  datatype SignedFile = SignedFile(filename: string, url: string, status: nat)

  /**
   * What the signing action does: return the signed files, or throw — an
   * `Error` with its message, or (`None`) some other value.
   */
  datatype Signing = Signed(files: seq<SignedFile>) | SignFailed(thrown: Option<string>)

  /**
   * Where the user's `cancel` lands during a run, if at all: while the URLs are
   * signed, just before file `index` is announced (the generator's abort check),
   * while file `index` is fetched, or once every file is fetched and the archive
   * is being built.
   */
  datatype CancelPoint = NoCancel | WhilePreparing | BeforeFile(index: nat) | WhileFetching(index: nat) | WhileZipping

  /** The cancel lands during the turn of file `j`. */
  predicate CancelsAt(cancel: CancelPoint, j: nat) {
    (cancel.BeforeFile? || cancel.WhileFetching?) && cancel.index == j
  }

  /** A state a run ends in: it no longer changes until the next action. */
  predicate Settled(s: DownloadState) {
    s == Complete || s == Cancelled || s.Error?
  }

  function Last(r: seq<DownloadState>): DownloadState
    requires |r| >= 1
  {
    r[|r| - 1]
  }

  const NoMediaMessage: string := "No media files to download."

  /** The message for a thrown value that is not an `Error`. */
  const DefaultFailure: string := "Download failed."

  /** `response.ok`. */
  predicate Ok(status: nat) {
    200 <= status <= 299
  }

  function FetchFailure(f: SignedFile): string {
    "Failed to fetch " + f.filename + ": " + Decimal(f.status)
  }

  /**
   * The catch block: cancelled when the run was aborted, else an error carrying
   * the thrown message, or the default one when no message came with it.
   */
  function Failure(aborted: bool, thrown: Option<string>): (r: DownloadState)
    ensures r == Cancelled <==> aborted
    ensures !aborted ==> r == Error(if thrown.Some? then thrown.value else DefaultFailure)
  {
    if aborted then Cancelled else Error(thrown.GetOr(DefaultFailure))
  }

  /**
   * The states set from file `i` on: "downloading" with the count of files
   * yielded so far, then, on a cancel, the state `cancel` sets (and, when it
   * aborts a fetch, the one the catch block sets), on a failed fetch an error,
   * and after the last file complete, or cancelled when the cancel lands while
   * the archive is built.
   */
  function FetchFrom(files: seq<SignedFile>, cancel: CancelPoint, i: nat): (r: seq<DownloadState>)
    requires i <= |files|
    ensures |r| >= 1
    decreases |files| - i, 1
  {
    if i == |files| then [if cancel == WhileZipping then Cancelled else Complete]
    else if cancel == BeforeFile(i) then [Cancelled]
    else [Downloading(i, |files|, files[i].filename)] + AfterFetch(files, cancel, i)
  }

  /** The states after file `i` was announced: the aborted fetch, the failed fetch, or the next files. */
  function AfterFetch(files: seq<SignedFile>, cancel: CancelPoint, i: nat): (r: seq<DownloadState>)
    requires i < |files|
    ensures |r| >= 1
    decreases |files| - i, 0
  {
    if cancel == WhileFetching(i) then [Cancelled, Failure(true, None)]
    else if !Ok(files[i].status) then [Failure(false, Some(FetchFailure(files[i])))]
    else FetchFrom(files, cancel, i + 1)
  }

  /** Every state `startDownload` (and a `cancel` landing during it) sets, in order. */
  function RunStates(mediaCount: nat, signing: Signing, cancel: CancelPoint): (r: seq<DownloadState>)
    ensures |r| >= 1
  {
    if mediaCount == 0 then [Error(NoMediaMessage)]
    else
      [Preparing] +
      match signing
      case SignFailed(thrown) =>
        if cancel == WhilePreparing then [Cancelled, Failure(true, thrown)] else [Failure(false, thrown)]
      case Signed(files) =>
        if cancel == WhilePreparing then [Cancelled] else FetchFrom(files, cancel, 0)
  }

  /** The file entries of the archive: the de-duplicated names with their URLs. */
  function FileEntries(names: seq<string>, files: seq<SignedFile>): (r: seq<ZipEntry>)
    requires |names| == |files|
    ensures |r| == |files|
    ensures forall k :: 0 <= k < |r| ==> r[k] == ZipEntry(names[k], Fetched(files[k].url))
  {
    if |files| == 0 then []
    else FileEntries(names[..|names| - 1], files[..|files| - 1]) + [ZipEntry(names[|names| - 1], Fetched(files[|files| - 1].url))]
  }

  function Filenames(files: seq<SignedFile>): (r: seq<string>)
    ensures |r| == |files|
  {
    if |files| == 0 then [] else Filenames(files[..|files| - 1]) + [files[|files| - 1].filename]
  }

  datatype ZipFile = ZipFile(name: string, entries: seq<ZipEntry>)

  /** The archive a completed run hands to the browser: every file under its de-duplicated name, then the manifest. */
  function Archive(title: string, files: seq<SignedFile>, refs: seq<FileReference>): ZipFile {
    ZipFile(ZipName(title), FileEntries(UniqueNames(Filenames(files)), files) + ManifestList(refs))
  }

  /** The manifest as a list of at most one entry. */
  function ManifestList(refs: seq<FileReference>): (r: seq<ZipEntry>)
    ensures |r| <= 1
  {
    var m := ManifestFile(refs);
    if m.Some? then [m.value] else []
  }

  /**
   * From file `i` on, "downloading" states come one per file in order, each
   * reporting as completed the files already yielded and as total the number of
   * signed files.
   */
  ghost predicate ProgressFrom(files: seq<SignedFile>, r: seq<DownloadState>, i: nat) {
    forall k :: 0 <= k < |r| && r[k].Downloading? ==>
      i + k < |files| && r[k] == Downloading(i + k, |files|, files[i + k].filename)
  }

  lemma {:induction false} FetchFromProgress(files: seq<SignedFile>, cancel: CancelPoint, i: nat)
    requires i <= |files|
    ensures ProgressFrom(files, FetchFrom(files, cancel, i), i)
    decreases |files| - i
  {
    var r := FetchFrom(files, cancel, i);
    if i < |files| && cancel != BeforeFile(i) {
      var after := AfterFetch(files, cancel, i);
      assert r == [Downloading(i, |files|, files[i].filename)] + after;
      if cancel != WhileFetching(i) && Ok(files[i].status) {
        FetchFromProgress(files, cancel, i + 1);
        assert ProgressFrom(files, after, i + 1);
      }
      assert forall k :: 1 <= k < |r| ==> r[k] == after[k - 1];
      assert forall k :: 0 <= k < |after| ==> !after[k].Downloading? || ProgressFrom(files, after, i + 1);
    }
  }

  /** No cancel lands on, and every fetch succeeds for, the files from `i` on. */
  predicate AllFetched(files: seq<SignedFile>, cancel: CancelPoint, i: nat) {
    forall j :: i <= j < |files| ==> !CancelsAt(cancel, j) && Ok(files[j].status)
  }

  /** Where the run from file `i` on ends: at the cancel, at the failed fetch, or where the run from the next file ends. */
  lemma FetchFromLast(files: seq<SignedFile>, cancel: CancelPoint, i: nat)
    requires i < |files|
    ensures Last(FetchFrom(files, cancel, i)) ==
              if CancelsAt(cancel, i) then Cancelled
              else if !Ok(files[i].status) then Error(FetchFailure(files[i]))
              else Last(FetchFrom(files, cancel, i + 1))
  {
    if cancel != BeforeFile(i) {
      var r := FetchFrom(files, cancel, i);
      var after := AfterFetch(files, cancel, i);
      assert r == [Downloading(i, |files|, files[i].filename)] + after;
      assert Last(r) == Last(after);
    }
  }

  /** From file `i` on, the run completes exactly when every remaining fetch succeeds and no cancel lands. */
  lemma {:induction false} FetchFromCompletes(files: seq<SignedFile>, cancel: CancelPoint, i: nat)
    requires i <= |files|
    ensures Last(FetchFrom(files, cancel, i)) == Complete <==> cancel != WhileZipping && AllFetched(files, cancel, i)
    decreases |files| - i
  {
    if i < |files| {
      FetchFromCompletes(files, cancel, i + 1);
      FetchFromLast(files, cancel, i);
      assert AllFetched(files, cancel, i) <==>
             !CancelsAt(cancel, i) && Ok(files[i].status) && AllFetched(files, cancel, i + 1);
    }
  }

  /** A run from file `i` on always ends in a settled state. */
  lemma {:induction false} FetchFromSettled(files: seq<SignedFile>, cancel: CancelPoint, i: nat)
    requires i <= |files|
    ensures Settled(Last(FetchFrom(files, cancel, i)))
    decreases |files| - i
  {
    if i < |files| {
      FetchFromSettled(files, cancel, i + 1);
      FetchFromLast(files, cancel, i);
    }
  }

  /** A run from file `i` on ends cancelled only when a cancel lands in it. */
  lemma {:induction false} FetchFromCancelled(files: seq<SignedFile>, cancel: CancelPoint, i: nat)
    requires i <= |files|
    ensures Last(FetchFrom(files, cancel, i)) == Cancelled ==> cancel != NoCancel
    decreases |files| - i
  {
    if i < |files| {
      FetchFromCancelled(files, cancel, i + 1);
      FetchFromLast(files, cancel, i);
    }
  }

  /** With no media files the run goes straight to the "no media" error, without preparing. */
  lemma NoMediaFails(signing: Signing, cancel: CancelPoint)
    ensures RunStates(0, signing, cancel) == [Error(NoMediaMessage)]
    ensures forall n: nat :: n > 0 ==> RunStates(n, signing, cancel)[0] == Preparing
  {
  }

  /** Every "downloading" state of a run reports fewer completed files than the total. */
  lemma RunProgress(mediaCount: nat, signing: Signing, cancel: CancelPoint)
    ensures var r := RunStates(mediaCount, signing, cancel);
            forall k :: 0 <= k < |r| && r[k].Downloading? ==> r[k].completed < r[k].total
  {
    var r := RunStates(mediaCount, signing, cancel);
    if mediaCount > 0 && signing.Signed? && cancel != WhilePreparing {
      FetchFromProgress(signing.files, cancel, 0);
      var rest := FetchFrom(signing.files, cancel, 0);
      assert r == [Preparing] + rest;
      forall k | 0 <= k < |r| && r[k].Downloading? ensures r[k].completed < r[k].total {
        assert r[k] == rest[k - 1];
      }
    }
  }

  /**
   * How a run ends: always settled; complete exactly when there was media, the
   * signing succeeded, every fetch succeeded and no cancel landed; cancelled
   * only when a cancel landed.
   */
  lemma RunOutcome(mediaCount: nat, signing: Signing, cancel: CancelPoint)
    ensures Settled(Last(RunStates(mediaCount, signing, cancel)))
    ensures Last(RunStates(mediaCount, signing, cancel)) == Cancelled ==> cancel != NoCancel
    ensures Last(RunStates(mediaCount, signing, cancel)) == Complete <==>
              mediaCount > 0 && signing.Signed? && cancel != WhilePreparing && cancel != WhileZipping &&
              AllFetched(signing.files, cancel, 0)
  {
    if mediaCount > 0 && signing.Signed? && cancel != WhilePreparing {
      FetchFromCompletes(signing.files, cancel, 0);
      FetchFromCancelled(signing.files, cancel, 0);
      FetchFromSettled(signing.files, cancel, 0);
      var rest := FetchFrom(signing.files, cancel, 0);
      assert Last(RunStates(mediaCount, signing, cancel)) == Last(rest);
    }
  }

  /** Announcing file `i` and fetching it, when no cancel stops the generator first. */
  lemma FetchFromUnfold(files: seq<SignedFile>, cancel: CancelPoint, i: nat)
    requires i < |files| && cancel != BeforeFile(i)
    ensures FetchFrom(files, cancel, i) == [Downloading(i, |files|, files[i].filename)] + AfterFetch(files, cancel, i)
    ensures cancel != WhileFetching(i) && Ok(files[i].status) ==> AfterFetch(files, cancel, i) == FetchFrom(files, cancel, i + 1)
  {
  }

  /** Appending a non-empty list of states makes its last state the last one. */
  lemma LastAppend(a: seq<DownloadState>, b: seq<DownloadState>)
    requires |b| >= 1
    ensures Last(a + b) == Last(b)
  {
  }

  /** Concatenation of state lists is associative. */
  lemma SeqAssoc(a: seq<DownloadState>, b: seq<DownloadState>, c: seq<DownloadState>)
    ensures a + (b + c) == (a + b) + c
  {
  }

  /**
   * The body of `startDownload` up to the download link, with the hook's status
   * as the list of states it is set to: the empty-library check, the signing,
   * the generator and the final abort check. The archive's entries are every
   * file under its de-duplicated name and then the manifest, whenever the run
   * completes.
   */
  method Run(mediaCount: nat, signing: Signing, refs: seq<FileReference>, cancel: CancelPoint)
    returns (states: seq<DownloadState>, entries: seq<ZipEntry>)
    ensures states == RunStates(mediaCount, signing, cancel)
    ensures Last(states) == Complete ==>
              signing.Signed? && entries == FileEntries(UniqueNames(Filenames(signing.files)), signing.files) + ManifestList(refs)
  {
    entries := [];
    if mediaCount == 0 {
      return [Error(NoMediaMessage)], [];
    }
    states := [Preparing];
    var aborted := false;
    if cancel == WhilePreparing {
      aborted := true;
      states := states + [Cancelled];
    }
    if signing.SignFailed? {
      states := states + [Failure(aborted, signing.thrown)];
      return;
    }
    if aborted {
      return;
    }
    var names := DedupNames(Filenames(signing.files));
    var rest;
    rest, entries := GenerateFiles(signing.files, names, refs, cancel);
    LastAppend(states, rest);
    states := states + rest;
  }

  /**
   * One turn of the file generator: the abort check, the "downloading"
   * announcement, the fetch and its status check. Reports the states this
   * turn sets and whether the generator stops here.
   */
  method FileTurn(files: seq<SignedFile>, cancel: CancelPoint, i: nat) returns (turn: seq<DownloadState>, stop: bool)
    requires i < |files|
    ensures stop <==> CancelsAt(cancel, i) || !Ok(files[i].status)
    ensures stop ==> turn == FetchFrom(files, cancel, i) && Last(turn) != Complete
    ensures !stop ==> turn == [Downloading(i, |files|, files[i].filename)] && FetchFrom(files, cancel, i) == turn + FetchFrom(files, cancel, i + 1)
  {
    if cancel == BeforeFile(i) {
      return [Cancelled], true;
    }
    FetchFromUnfold(files, cancel, i);
    turn := [Downloading(i, |files|, files[i].filename)];
    if cancel == WhileFetching(i) {
      return turn + [Cancelled, Failure(true, None)], true;
    }
    if !Ok(files[i].status) {
      return turn + [Failure(false, Some(FetchFailure(files[i])))], true;
    }
    stop := false;
  }

  /**
   * The file generator of `startDownload` and the archive built from it, up to
   * the final abort check: the states it sets, and the entries it yields,
   * which are every file under its name and then the manifest when the run
   * completes.
   */
  method GenerateFiles(files: seq<SignedFile>, names: seq<string>, refs: seq<FileReference>, cancel: CancelPoint)
    returns (states: seq<DownloadState>, entries: seq<ZipEntry>)
    requires |names| == |files|
    ensures states == FetchFrom(files, cancel, 0)
    ensures Last(states) == Complete ==> entries == FileEntries(names, files) + ManifestList(refs)
  {
    states := [];
    entries := [];
    ghost var whole := FetchFrom(files, cancel, 0);
    assert states + whole == whole;
    var i := 0;
    while i < |files|
      invariant 0 <= i <= |files|
      invariant states + FetchFrom(files, cancel, i) == whole
      invariant |entries| == i && forall k :: 0 <= k < i ==> entries[k] == ZipEntry(names[k], Fetched(files[k].url))
    {
      var turn, stop := FileTurn(files, cancel, i);
      if stop {
        LastAppend(states, turn);
        states := states + turn;
        return;
      }
      SeqAssoc(states, turn, FetchFrom(files, cancel, i + 1));
      states := states + turn;
      entries := entries + [ZipEntry(names[i], Fetched(files[i].url))];
      i := i + 1;
    }
    assert entries == FileEntries(names, files);
    entries := entries + ManifestList(refs);
    states := states + [if cancel == WhileZipping then Cancelled else Complete];
  }

  /** The hook's status and the actions that set it. */
  class Downloader {
    var state: DownloadState

    constructor ()
      ensures state == Idle
    {
      state := Idle;
    }

    /** `cancel`: aborts the run and always reports cancelled. */
    method Cancel()
      modifies this
      ensures state == Cancelled
    {
      state := Cancelled;
    }

    /** `reset`: always back to idle. */
    method Reset()
      modifies this
      ensures state == Idle
    {
      state := Idle;
    }

    /**
     * `startDownload`: sets the states `RunStates` lists, one after the other,
     * and hands the archive to the browser exactly when the run completes.
     */
    method StartDownload(mediaCount: nat, signing: Signing, refs: seq<FileReference>, cancel: CancelPoint, title: string)
      returns (states: seq<DownloadState>, archive: Option<ZipFile>)
      modifies this
      ensures states == RunStates(mediaCount, signing, cancel)
      ensures state == Last(states)
      ensures archive.Some? <==> state == Complete
      ensures archive.Some? ==> signing.Signed? && archive.value == Archive(title, signing.files, refs)
    {
      var entries;
      states, entries := Run(mediaCount, signing, refs, cancel);
      state := Last(states);
      archive := if state == Complete then Some(ZipFile(ZipName(title), entries)) else None;
    }
  }

  /** The name a file receives does not depend on the files after it. */
  lemma {:induction false} UniqueNamesPrefix(names: seq<string>, n: nat)
    requires n <= |names|
    ensures UniqueNames(names[..n]) == UniqueNames(names)[..n]
  {
    UniqueNamesAt(names);
    UniqueNamesAt(names[..n]);
    var a, b := UniqueNames(names[..n]), UniqueNames(names)[..n];
    forall i | 0 <= i < n ensures a[i] == b[i] {
      assert names[..n][..i] == names[..i];
    }
  }
}
