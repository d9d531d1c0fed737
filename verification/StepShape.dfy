/** The few shapes a row can have after a step in which no unforeseen exception occurs. */
module StepShape {
  import opened Common
  import opened IndexLinks
  import opened SyncSpec

  /** Rows a step may still hand on to SUBMITTED. */
  predicate Early(row: Link) {
    row.state == Pending || row.state == ReindexPending || (row.state == Submitted && row.ragFileId.None?)
  }

  /** Out of the queue for good as far as the job is concerned: terminal, or a settled removal. */
  predicate Left(after: Link) {
    || !InDueState(after.state)
    || ((after.state == Removed || after.state == Archived) && after.nextAttemptAt == Some(CONFIRMED_REMOVAL_AT))
  }

  /** One more attempt used, in the same state or moved from PENDING to REINDEX_PENDING. */
  predicate Waiting(cfg: Config, row: Link, after: Link, now: Time) {
    && after.attempts == row.attempts + 1 < cfg.maxAttempts
    && after.nextAttemptAt == Some(now + Backoff(after.attempts))
    && (after.state == row.state || (row.state == Pending && after.state == ReindexPending))
    && (Early(after) <==> Early(row))
    && (after.updatedAt == row.updatedAt || (Early(row) && after.updatedAt == now)
        || ((row.state == Removed || row.state == Archived) && after.updatedAt == now))
  }

  /** Just handed to the index. */
  predicate Handed(row: Link, after: Link, now: Time) {
    && Early(row)
    && after.state == Submitted && after.ragFileId.Some?
    && after.attempts == 0 && after.nextAttemptAt == None && after.updatedAt == now
  }

  /** A poll that found the index still working, before the wait ran out. */
  predicate StillIndexing(cfg: Config, row: Link, after: Link, now: Time) {
    && row.state == Submitted && row.ragFileId.Some?
    && now - row.updatedAt < cfg.maxWaitSeconds * SECOND
    && after == row.(nextAttemptAt := Some(now + Backoff(row.attempts)))
  }

  /** updatedAt is kept, or moved to this instant. */
  predicate Clocked(row: Link, after: Link, now: Time) {
    after.updatedAt == row.updatedAt || after.updatedAt == now
  }

  predicate Shape(cfg: Config, row: Link, after: Link, now: Time) {
    && Clocked(row, after, now)
    && (|| Left(after)
        || Waiting(cfg, row, after, now)
        || Handed(row, after, now)
        || StillIndexing(cfg, row, after, now))
  }

  lemma RetryShape(cfg: Config, row: Link, now: Time, code: ErrorCode, calls: seq<Call>)
    requires InDueState(row.state)
    ensures var after := Retry(cfg, row, now, code, calls).row;
            Clocked(row, after, now) && (Left(after) || Waiting(cfg, row, after, now))
  {
    hide Backoff;
  }

  lemma MissShape(cfg: Config, row: Link, now: Time, calls: seq<Call>)
    requires Early(row)
    ensures var after := Miss(cfg, row, now, calls).row;
            Clocked(row, after, now) && (Left(after) || Waiting(cfg, row, after, now))
  {
    hide Backoff, IsPreviewKey;
  }

  lemma RegisterShape(cfg: Config, row: Link, now: Time, a: Answers, calls: seq<Call>)
    requires Typed(a) && Early(row) && row.ragFileId.None?
    ensures var after := RegisterStep(cfg, row, now, a, calls).row;
            Clocked(row, after, now) && (Left(after) || Waiting(cfg, row, after, now) || Handed(row, after, now))
  {
    hide Backoff, Retry, Miss, SucceededRow, FailedRow, SkippedRow, IsDocument, IsImage;
    MissShape(cfg, row, now, calls);
    LeftRows(row, now, if a.register.Http? then HttpErrorCode(a.register.error) else UnsupportedType);
    LeftRows(row, now, DuplicateConflict);
    LeftRows(row, now, UnsupportedType);
    if a.registerObject.Present? {
      var digest := SentDigest(row, a.registerObject.digest);
      if a.register.Unavailable? {
        RetryShape(cfg, row, now, OutageCode(a.register.code),
                   calls + [Register(!IsDocument(row), row.userId, digest)]);
      } else if a.register.Reply? {
        HandedRow(row, now, a.register.value.fileId, digest);
      } else if a.register.Http? {
        HandedRow(row, now, a.register.error.detailFileId.GetOr(0), digest);
      }
    }
  }

  lemma LeftRows(row: Link, now: Time, code: ErrorCode)
    ensures Clocked(row, FailedRow(row, now, code), now) && Left(FailedRow(row, now, code))
    ensures Clocked(row, SkippedRow(row, now, code), now) && Left(SkippedRow(row, now, code))
  {
  }

  lemma HandedRow(row: Link, now: Time, rag: RagId, digest: Hash)
    requires Early(row) && row.ragFileId.None?
    ensures var after := SucceededRow(row, now, Submitted, rag, digest);
            Clocked(row, after, now) && Handed(row, after, now)
  {
  }

  lemma ReindexShape(cfg: Config, row: Link, now: Time, a: Answers, calls: seq<Call>)
    requires Typed(a) && row.state == ReindexPending
    ensures var after := ReindexStep(cfg, row, now, a, calls).row;
            Clocked(row, after, now) && (Left(after) || Waiting(cfg, row, after, now) || Handed(row, after, now))
  {
    if row.ragFileId.None? {
      RegisterShape(cfg, row, now, a, calls);
    } else {
      var more := calls + [DeleteVectors(row.ragFileId.value)];
      if a.deleteVectors.Unavailable? {
        RetryShape(cfg, row, now, OutageCode(a.deleteVectors.code), more);
      } else if ConfirmsGone(a.deleteVectors) {
        RegisterShape(cfg, ClearedRow(row, now), now, a, more);
      }
    }
  }

  lemma RekeyShape(cfg: Config, row: Link, now: Time, a: Answers)
    requires Typed(a) && row.state == Pending && row.ragFileId.Some?
    ensures Shape(cfg, row, RekeyStep(cfg, row, now, a).row, now)
  {
    MissShape(cfg, row, now, []);
    if a.rekeyObject.Present? {
      var calls := [Rekey(row.ragFileId.value)];
      if a.rekey.Unavailable? {
        RetryShape(cfg, row, now, OutageCode(a.rekey.code), calls);
      } else if a.rekey.Http? && a.rekey.error.status == 409 && a.rekey.error.code == Some(ContentChangedError) {
        ReindexShape(cfg, ContentChangedRow(row, now), now, a, calls);
      }
    }
  }

  lemma PollShape(cfg: Config, row: Link, now: Time, a: Answers)
    requires Typed(a) && row.state == Submitted && row.ragFileId.Some?
    ensures Shape(cfg, row, PollStep(cfg, row, now, a).row, now)
  {
    if a.getFile.Unavailable? {
      RetryShape(cfg, row, now, OutageCode(a.getFile.code), [GetFile(row.ragFileId.value)]);
    }
  }

  lemma RemoveShape(cfg: Config, row: Link, now: Time, a: Answers)
    requires Typed(a) && (row.state == Removed || row.state == Archived)
    ensures Shape(cfg, row, RemoveStep(cfg, row, now, a).row, now)
  {
    if row.ragFileId.Some? {
      var calls := [DeleteVectors(row.ragFileId.value)];
      if a.deleteVectors.Unavailable? {
        RetryShape(cfg, row, now, OutageCode(a.deleteVectors.code), calls);
      } else if a.deleteVectors.Http? {
        RetryShape(cfg, row, now, HttpErrorCode(a.deleteVectors.error), calls);
      }
    }
  }

  /** Every step at a row of the queue ends in one of the four shapes. */
  lemma ProcessShape(cfg: Config, row: Link, now: Time, a: Answers)
    requires Typed(a) && InDueState(row.state)
    ensures Shape(cfg, row, Process(cfg, row, now, a).row, now)
  {
    match row.state
    case Removed => RemoveShape(cfg, row, now, a);
    case Archived => RemoveShape(cfg, row, now, a);
    case ReindexPending => ReindexShape(cfg, row, now, a, []);
    case Submitted =>
      if row.ragFileId.None? { RegisterShape(cfg, row, now, a, []); } else { PollShape(cfg, row, now, a); }
    case Pending =>
      if row.ragFileId.None? { RegisterShape(cfg, row, now, a, []); } else { RekeyShape(cfg, row, now, a); }
  }

  // ----- Columns no step writes, whatever is answered -----

  predicate Fixed(row: Link, after: Link) {
    && after.id == row.id && after.fileRecordId == row.fileRecordId && after.userId == row.userId
    && after.section == row.section && after.createdAt == row.createdAt
    && after.s3Key == row.s3Key && after.contentType == row.contentType
  }

  lemma RetryFixed(cfg: Config, row: Link, now: Time, code: ErrorCode, calls: seq<Call>)
    ensures Fixed(row, Retry(cfg, row, now, code, calls).row)
  {
  }

  lemma MissFixed(cfg: Config, row: Link, now: Time, calls: seq<Call>)
    ensures Fixed(row, Miss(cfg, row, now, calls).row)
  {
  }

  lemma RegisterFixed(cfg: Config, row: Link, now: Time, a: Answers, calls: seq<Call>)
    ensures Fixed(row, RegisterStep(cfg, row, now, a, calls).row)
  {
    MissFixed(cfg, row, now, calls);
    if a.registerObject.Present? && a.register.Unavailable? {
      var digest := SentDigest(row, a.registerObject.digest);
      RetryFixed(cfg, row, now, OutageCode(a.register.code), calls + [Register(!IsDocument(row), row.userId, digest)]);
    }
  }

  lemma ReindexFixed(cfg: Config, row: Link, now: Time, a: Answers, calls: seq<Call>)
    ensures Fixed(row, ReindexStep(cfg, row, now, a, calls).row)
  {
    RegisterFixed(cfg, row, now, a, calls);
    if row.ragFileId.Some? {
      var more := calls + [DeleteVectors(row.ragFileId.value)];
      RegisterFixed(cfg, ClearedRow(row, now), now, a, more);
      if a.deleteVectors.Unavailable? { RetryFixed(cfg, row, now, OutageCode(a.deleteVectors.code), more); }
    }
  }

  lemma RekeyFixed(cfg: Config, row: Link, now: Time, a: Answers)
    requires row.ragFileId.Some?
    ensures Fixed(row, RekeyStep(cfg, row, now, a).row)
  {
    var calls := [Rekey(row.ragFileId.value)];
    MissFixed(cfg, row, now, []);
    ReindexFixed(cfg, ContentChangedRow(row, now), now, a, calls);
    if a.rekey.Unavailable? { RetryFixed(cfg, row, now, OutageCode(a.rekey.code), calls); }
  }

  lemma PollFixed(cfg: Config, row: Link, now: Time, a: Answers)
    requires row.ragFileId.Some?
    ensures Fixed(row, PollStep(cfg, row, now, a).row)
  {
    if a.getFile.Unavailable? { RetryFixed(cfg, row, now, OutageCode(a.getFile.code), [GetFile(row.ragFileId.value)]); }
  }

  lemma RemoveFixed(cfg: Config, row: Link, now: Time, a: Answers)
    ensures Fixed(row, RemoveStep(cfg, row, now, a).row)
  {
    if row.ragFileId.Some? {
      var calls := [DeleteVectors(row.ragFileId.value)];
      if a.deleteVectors.Unavailable? { RetryFixed(cfg, row, now, OutageCode(a.deleteVectors.code), calls); }
      if a.deleteVectors.Http? { RetryFixed(cfg, row, now, HttpErrorCode(a.deleteVectors.error), calls); }
    }
  }

  lemma ProcessFixed(cfg: Config, row: Link, now: Time, a: Answers)
    ensures Fixed(row, Process(cfg, row, now, a).row)
  {
    match row.state
    case ReindexPending => ReindexFixed(cfg, row, now, a, []);
    case Pending =>
      if row.ragFileId.None? { RegisterFixed(cfg, row, now, a, []); } else { RekeyFixed(cfg, row, now, a); }
    case Submitted =>
      if row.ragFileId.None? { RegisterFixed(cfg, row, now, a, []); } else { PollFixed(cfg, row, now, a); }
    case Removed => RemoveFixed(cfg, row, now, a);
    case Archived => RemoveFixed(cfg, row, now, a);
    case _ =>
  }
}
