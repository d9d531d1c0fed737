/** One row of the index queue, and the column update every writer goes through. */
module IndexLinks {
  import opened Common

  type LinkId = nat
  type FileId = nat
  type UserId = nat
  type RagId = nat
  type Hash = string

  // Instants are whole microseconds, the resolution of the stored timestamps.
  type Time = int
  const SECOND: int := 1_000_000
  // 9999-01-01T00:00:00Z: the stamp that keeps a confirmed removal out of the queue.
  const CONFIRMED_REMOVAL_AT: Time := 253_370_764_800 * SECOND

  datatype LinkState =
    Pending | Submitted | Indexed | Failed | Skipped | Removed | Archived | ReindexPending

  datatype Section = Photos | Files | Private | Shared | Resumes | Generated

  /** The content types the index knows, by the names the stored text stands for. */
  datatype ContentType = Pdf | Docx | Xlsx | Jpeg | Png | Webp | Gif | OctetStream | OtherType(text: string)

  /** Error codes by name; `HttpStatus(n)` is the text the job builds for an error without a code. */
  datatype ErrorCode =
    | Timeout | DependencyUnavailable | DuplicateFile | FileBusy | ContentChangedError
    | ObjectNotFound | DuplicateConflict | UnsupportedType | PreviewMissing | ArchivedObject | ExcludedSection
    | ErrorStatus | HttpStatus(status: nat) | OtherCode(text: string)

  datatype Link = Link(
    id: LinkId,
    fileRecordId: Option<FileId>,
    userId: UserId,
    section: Section,
    s3Key: string,
    contentSha256: Option<Hash>,
    contentType: ContentType,
    ragFileId: Option<RagId>,
    state: LinkState,
    attempts: nat,
    nextAttemptAt: Option<Time>,
    lastErrorCode: Option<ErrorCode>,
    createdAt: Time,
    updatedAt: Time)

  predicate InDueState(state: LinkState) {
    state in {Pending, Submitted, Removed, Archived, ReindexPending}
  }

  predicate Due(link: Link, now: Time) {
    && InDueState(link.state)
    && link.section != Private
    && (link.nextAttemptAt.Some? ==> link.nextAttemptAt.value <= now)
  }

  /** Leave a column alone, or write it. */
  datatype Update<+T> = Unset | Set(value: T) {
    function Over(current: T): T {
      if Set? then value else current
    }
  }

  datatype Patch = Patch(
    state: Update<LinkState>,
    attempts: Update<nat>,
    nextAttemptAt: Update<Option<Time>>,
    ragFileId: Update<Option<RagId>>,
    lastErrorCode: Update<Option<ErrorCode>>,
    s3Key: Update<string>,
    contentSha256: Update<Option<Hash>>,
    contentType: Update<ContentType>)

  const NO_CHANGE := Patch(Unset, Unset, Unset, Unset, Unset, Unset, Unset, Unset)

  /** The columns whose change moves updatedAt; attempts and nextAttemptAt are not among them. */
  predicate SameTracked(a: Link, b: Link) {
    && a.state == b.state
    && a.ragFileId == b.ragFileId
    && a.lastErrorCode == b.lastErrorCode
    && a.s3Key == b.s3Key
    && a.contentSha256 == b.contentSha256
    && a.contentType == b.contentType
  }

  /** `after` with updatedAt moved to `now` exactly when a tracked column differs from `before`. */
  function Stamp(before: Link, after: Link, now: Time): Link {
    after.(updatedAt := if SameTracked(before, after) then before.updatedAt else now)
  }

  function Overlay(link: Link, p: Patch): Link {
    link.(
      state := p.state.Over(link.state),
      attempts := p.attempts.Over(link.attempts),
      nextAttemptAt := p.nextAttemptAt.Over(link.nextAttemptAt),
      ragFileId := p.ragFileId.Over(link.ragFileId),
      lastErrorCode := p.lastErrorCode.Over(link.lastErrorCode),
      s3Key := p.s3Key.Over(link.s3Key),
      contentSha256 := p.contentSha256.Over(link.contentSha256),
      contentType := p.contentType.Over(link.contentType))
  }

  function Patched(link: Link, p: Patch, now: Time): Link {
    Stamp(link, Overlay(link, p), now)
  }

  // ----- Queue order -----

  /** created_at, then id: the order in which claims are made. */
  predicate Before(a: Link, b: Link) {
    a.createdAt < b.createdAt || (a.createdAt == b.createdAt && a.id < b.id)
  }

  /** Every row is stored under its own id. */
  ghost predicate Keyed(rows: map<LinkId, Link>) {
    forall id | id in rows :: rows[id].id == id
  }
}
