/**
 * What one `_process` call does to one row, as a table over the row's state and
 * the answers of the outside world. SyncJob proves that the step-by-step code
 * computes this table; every property of the queue is proved about it.
 */
module SyncSpec {
  import opened Common
  import opened IndexLinks

  const BACKOFF_BASE_SECONDS := 30
  const BACKOFF_CAP_SECONDS := 3600

  const PREVIEW_KEY_MARKER := "/photos/previews/"
  const PREVIEW_SUFFIX := "_thumb.jpg"

  datatype Config = Config(maxAttempts: int, maxWaitSeconds: int)

  // ----- Answers -----

  /** An application-level HTTP error, with the code of its body if there is one. */
  datatype HttpError = HttpError(status: nat, code: Option<ErrorCode>, detailFileId: Option<RagId>)

  datatype CardStatus = Ready | Errored | Deleting | Deleted | StillWorking

  datatype Card = Card(fileId: RagId, status: CardStatus, error: Option<ErrorCode>)

  /** One remote call: a reply, an HTTP error, an outage, or any other exception. */
  datatype Answer<+T> =
    | Reply(value: T)
    | Http(error: HttpError)
    | Unavailable(code: Option<ErrorCode>)
    | Crash

  /** What the object reader finds: digest and size, nothing, or an exception. */
  datatype ObjectAnswer = Present(digest: Hash, size: nat) | Absent | Broken

  /** Everything the outside world says during one `_process` call. */
  datatype Answers = Answers(
    rekeyObject: ObjectAnswer,
    registerObject: ObjectAnswer,
    getFile: Answer<Card>,
    rekey: Answer<Card>,
    deleteVectors: Answer<()>,
    register: Answer<Card>)

  /** The environment of the termination and drain results: no unforeseen exception. */
  predicate Typed(a: Answers) {
    && !a.rekeyObject.Broken? && !a.registerObject.Broken?
    && !a.getFile.Crash? && !a.rekey.Crash? && !a.deleteVectors.Crash? && !a.register.Crash?
  }

  /** A remote call that was made, in order. */
  datatype Call =
    | Register(image: bool, user: UserId, digest: Hash)
    | GetFile(id: RagId)
    | Rekey(id: RagId)
    | DeleteVectors(id: RagId)

  datatype Outcome = Transitioned | Retried | FailedOutcome | SkippedOutcome

  datatype Step = Step(row: Link, outcome: Outcome, calls: seq<Call>)

  // ----- Helpers of the original -----

  function Pow2(n: nat): nat {
    if n == 0 then 1 else 2 * Pow2(n - 1)
  }

  function Backoff(attempts: nat): int {
    Min(BACKOFF_CAP_SECONDS, BACKOFF_BASE_SECONDS * Pow2(attempts)) * SECOND
  }

  predicate IsDocument(link: Link) {
    link.contentType == Pdf || link.contentType == Docx || link.contentType == Xlsx
  }

  predicate IsImage(link: Link) {
    link.contentType == Jpeg || link.contentType == Png || link.contentType == Webp || link.contentType == Gif
  }

  predicate IsPreviewKey(key: string) {
    Contains(key, PREVIEW_KEY_MARKER) && EndsWith(key, PREVIEW_SUFFIX)
  }

  predicate VectorsAlreadyGone(e: HttpError) {
    e.status == 404 || (e.status == 409 && e.code == Some(FileBusy))
  }

  function HttpErrorCode(e: HttpError): ErrorCode {
    e.code.GetOr(HttpStatus(e.status))
  }

  function OutageCode(code: Option<ErrorCode>): ErrorCode {
    code.GetOr(DependencyUnavailable)
  }

  predicate ConfirmsGone(a: Answer<()>) {
    a.Reply? || (a.Http? && VectorsAlreadyGone(a.error))
  }

  /** The hash that a registration or re-key of this row would send. */
  function SentDigest(link: Link, found: Hash): Hash {
    link.contentSha256.GetOr(found)
  }

  // ----- Rows after each kind of write -----

  function SucceededRow(row: Link, now: Time, state: LinkState, rag: RagId, digest: Hash): Link {
    Stamp(row, row.(state := state, attempts := 0, nextAttemptAt := None, ragFileId := Some(rag),
                    lastErrorCode := None, contentSha256 := Some(digest)), now)
  }

  function ReadyRow(row: Link, now: Time, rag: RagId): Link {
    Stamp(row, row.(state := Indexed, attempts := 0, nextAttemptAt := None, ragFileId := Some(rag),
                    lastErrorCode := None), now)
  }

  function SettledRow(row: Link, now: Time, terminal: LinkState): Link {
    Stamp(row, row.(state := terminal, attempts := 0, nextAttemptAt := Some(CONFIRMED_REMOVAL_AT),
                    lastErrorCode := None), now)
  }

  function FailedRow(row: Link, now: Time, code: ErrorCode): Link {
    Stamp(row, row.(state := Failed, nextAttemptAt := None, lastErrorCode := Some(code)), now)
  }

  function SkippedRow(row: Link, now: Time, code: ErrorCode): Link {
    Stamp(row, row.(state := Skipped, nextAttemptAt := None, lastErrorCode := Some(code)), now)
  }

  function ClearedRow(row: Link, now: Time): Link {
    Stamp(row, row.(ragFileId := None), now)
  }

  function ContentChangedRow(row: Link, now: Time): Link {
    Stamp(row, row.(state := ReindexPending, nextAttemptAt := None,
                    lastErrorCode := Some(ContentChangedError)), now)
  }

  // ----- Steps -----

  function Fail(row: Link, now: Time, code: ErrorCode, calls: seq<Call>): Step {
    Step(FailedRow(row, now, code), FailedOutcome, calls)
  }

  /** An unforeseen exception is logged; whatever was written so far stays. */
  function Swallowed(row: Link, calls: seq<Call>): Step {
    Step(row, FailedOutcome, calls)
  }

  /** One failed attempt: wait longer, or give up at the cap. A SUBMITTED row keeps its error code. */
  function Retry(cfg: Config, row: Link, now: Time, code: ErrorCode, calls: seq<Call>): Step {
    var attempts := row.attempts + 1;
    if attempts >= cfg.maxAttempts then
      Step(FailedRow(row, now, code).(attempts := attempts), FailedOutcome, calls)
    else
      var waiting := row.(attempts := attempts, nextAttemptAt := Some(now + Backoff(attempts)));
      var coded := if row.state == Submitted then waiting else waiting.(lastErrorCode := Some(code));
      Step(Stamp(row, coded, now), Retried, calls)
  }

  /** The object is absent: previews are waited for, anything else fails at once. */
  function Miss(cfg: Config, row: Link, now: Time, calls: seq<Call>): Step {
    var attempts := row.attempts + 1;
    if row.contentSha256.Some? || !IsPreviewKey(row.s3Key) then
      Fail(row, now, ObjectNotFound, calls)
    else if attempts >= cfg.maxAttempts then
      Step(SkippedRow(row, now, PreviewMissing).(attempts := attempts), SkippedOutcome, calls)
    else
      Step(Stamp(row, row.(attempts := attempts, nextAttemptAt := Some(now + Backoff(attempts)),
                           lastErrorCode := Some(PreviewMissing)), now), Retried, calls)
  }

  function RegisterStep(cfg: Config, row: Link, now: Time, a: Answers, made: seq<Call>): Step {
    if !IsDocument(row) && !IsImage(row) then
      Step(SkippedRow(row, now, UnsupportedType), SkippedOutcome, made)
    else
      match a.registerObject
      case Broken => Swallowed(row, made)
      case Absent => Miss(cfg, row, now, made)
      case Present(found, _) =>
        var digest := SentDigest(row, found);
        var calls := made + [Register(!IsDocument(row), row.userId, digest)];
        match a.register
        case Crash => Swallowed(row, calls)
        case Unavailable(code) => Retry(cfg, row, now, OutageCode(code), calls)
        case Reply(card) =>
          Step(SucceededRow(row, now, Submitted, card.fileId, digest), Transitioned, calls)
        case Http(e) =>
          if e.status == 409 && e.code == Some(DuplicateFile) then
            if e.detailFileId.None? then Fail(row, now, DuplicateConflict, calls)
            else if row.ragFileId.Some? && row.ragFileId != e.detailFileId then
              Fail(row, now, DuplicateConflict, calls)
            else
              Step(SucceededRow(row, now, Submitted, e.detailFileId.value, digest), Transitioned, calls)
          else
            Fail(row, now, HttpErrorCode(e), calls)
  }

  function ReindexStep(cfg: Config, row: Link, now: Time, a: Answers, made: seq<Call>): Step {
    if row.ragFileId.None? then RegisterStep(cfg, row, now, a, made)
    else
      var calls := made + [DeleteVectors(row.ragFileId.value)];
      match a.deleteVectors
      case Crash => Swallowed(row, calls)
      case Unavailable(code) => Retry(cfg, row, now, OutageCode(code), calls)
      case Http(e) =>
        if VectorsAlreadyGone(e) then RegisterStep(cfg, ClearedRow(row, now), now, a, calls)
        else Fail(row, now, HttpErrorCode(e), calls)
      case Reply(_) => RegisterStep(cfg, ClearedRow(row, now), now, a, calls)
  }

  function RekeyStep(cfg: Config, row: Link, now: Time, a: Answers): Step
    requires row.ragFileId.Some?
  {
    match a.rekeyObject
    case Broken => Swallowed(row, [])
    case Absent => Miss(cfg, row, now, [])
    case Present(found, _) =>
      var calls := [Rekey(row.ragFileId.value)];
      match a.rekey
      case Crash => Swallowed(row, calls)
      case Unavailable(code) => Retry(cfg, row, now, OutageCode(code), calls)
      case Reply(card) =>
        Step(SucceededRow(row, now, Indexed, card.fileId, SentDigest(row, found)), Transitioned, calls)
      case Http(e) =>
        if e.status == 409 && e.code == Some(ContentChangedError) then
          ReindexStep(cfg, ContentChangedRow(row, now), now, a, calls)
        else if e.status == 404 then
          Fail(row, now, e.code.GetOr(ObjectNotFound), calls)
        else
          Fail(row, now, HttpErrorCode(e), calls)
  }

  function PollStep(cfg: Config, row: Link, now: Time, a: Answers): Step
    requires row.ragFileId.Some?
  {
    var calls := [GetFile(row.ragFileId.value)];
    match a.getFile
    case Crash => Swallowed(row, calls)
    case Unavailable(code) => Retry(cfg, row, now, OutageCode(code), calls)
    case Http(e) =>
      if e.status == 404 then Step(SettledRow(row, now, Removed), Transitioned, calls)
      else Fail(row, now, HttpErrorCode(e), calls)
    case Reply(card) =>
      match card.status
      case Ready => Step(ReadyRow(row, now, card.fileId), Transitioned, calls)
      case Errored => Fail(row, now, card.error.GetOr(ErrorStatus), calls)
      case Deleting => Step(SettledRow(row, now, Removed), Transitioned, calls)
      case Deleted => Step(SettledRow(row, now, Removed), Transitioned, calls)
      case StillWorking =>
        if now - row.updatedAt >= cfg.maxWaitSeconds * SECOND then
          Fail(row, now, Timeout, calls)
        else
          Step(row.(nextAttemptAt := Some(now + Backoff(row.attempts))), Retried, calls)
  }

  function RemoveStep(cfg: Config, row: Link, now: Time, a: Answers): Step {
    if row.ragFileId.None? then Step(SettledRow(row, now, row.state), Transitioned, [])
    else
      var calls := [DeleteVectors(row.ragFileId.value)];
      match a.deleteVectors
      case Crash => Swallowed(row, calls)
      case Unavailable(code) => Retry(cfg, row, now, OutageCode(code), calls)
      case Reply(_) => Step(SettledRow(row, now, row.state), Transitioned, calls)
      case Http(e) =>
        if VectorsAlreadyGone(e) then Step(SettledRow(row, now, row.state), Transitioned, calls)
        else Retry(cfg, row, now, HttpErrorCode(e), calls)
  }

  /** One `_process` call. */
  function Process(cfg: Config, row: Link, now: Time, a: Answers): Step {
    match row.state
    case Skipped => Step(row, SkippedOutcome, [])
    case Indexed => Step(row, SkippedOutcome, [])
    case Failed => Step(row, SkippedOutcome, [])
    case Removed => RemoveStep(cfg, row, now, a)
    case Archived => RemoveStep(cfg, row, now, a)
    case ReindexPending => ReindexStep(cfg, row, now, a, [])
    case Submitted =>
      if row.ragFileId.None? then RegisterStep(cfg, row, now, a, []) else PollStep(cfg, row, now, a)
    case Pending =>
      if row.ragFileId.None? then RegisterStep(cfg, row, now, a, []) else RekeyStep(cfg, row, now, a)
  }

  lemma {:induction false} BackoffBounds(attempts: nat)
    ensures 30 * SECOND <= Backoff(attempts) <= 3600 * SECOND
    ensures attempts > 0 ==> Backoff(attempts) >= 60 * SECOND
    ensures Backoff(attempts) == 3600 * SECOND <==> attempts >= 7
  {
    Pow2AtLeast(attempts);
    if attempts >= 7 {
      Pow2Grows(7, attempts);
    }
  }

  lemma {:induction false} Pow2AtLeast(n: nat)
    ensures Pow2(n) >= 1
    ensures n > 0 ==> Pow2(n) >= 2
    ensures n < 7 ==> Pow2(n) <= 64
  {
    if n > 0 {
      Pow2AtLeast(n - 1);
      if n < 7 { Pow2Grows(n, 6); }
      assert Pow2(6) == 64 by { assert Pow2(3) == 8; assert Pow2(4) == 16; assert Pow2(5) == 32; }
    }
  }

  lemma {:induction false} Pow2Grows(m: nat, n: nat)
    requires m <= n
    ensures Pow2(m) <= Pow2(n)
    decreases n
  {
    if m < n {
      Pow2Grows(m, n - 1);
    }
  }
}
