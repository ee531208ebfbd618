/**
 * The database rows the client-side core reads (src/lib/supabase/types.ts).
 * Columns the core never reads (timestamps other than `created_at`, owner ids,
 * storage paths, image dimensions) are omitted. Offsets and sizes are JavaScript
 * numbers and are modelled as unbounded integers.
 */
module Records {
  import opened Wrappers

  /** A highlight row. `labelKey` is the `label` column; `groupId` is read by the store although the row type omits it. */
  datatype Highlight = Highlight(
    id: string,
    sectionId: string,
    startOffset: int,
    endOffset: int,
    labelKey: Option<string>,
    color: Option<string>,
    note: Option<string>,
    createdAt: string,
    groupId: Option<string>)

  /** JavaScript truthiness of a nullable text column: present and non-empty. */
  predicate Truthy(o: Option<string>) {
    o.Some? && o.value != ""
  }

  datatype MediaFile = MediaFile(id: string, filename: string, sizeBytes: int)

  datatype FileType = Video | Image | Audio | Other

  datatype FileReference = FileReference(
    id: string,
    filename: string,
    location: Option<string>,
    description: Option<string>,
    fileType: FileType)

  /** An attachment of a media file or a file reference to a highlight. */
  datatype HighlightMedia = HighlightMedia(
    id: string,
    highlightId: string,
    mediaFileId: Option<string>,
    fileReferenceId: Option<string>)

  /** An attachment of a media file or a file reference to a whole section. */
  datatype SectionMedia = SectionMedia(
    id: string,
    sectionId: string,
    mediaFileId: Option<string>,
    fileReferenceId: Option<string>)

  datatype HighlightComment = HighlightComment(id: string, highlightId: string, userId: string, body: string)

  datatype Profile = Profile(id: string, displayName: string)
}
