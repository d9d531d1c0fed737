/**
 * What a step asks of the index and what becomes of the row, told from the row
 * and the answers alone: which calls are made, which state follows and what
 * every column holds then.
 */
module StepOutcome {
  import opened Common
  import opened IndexLinks
  import opened SyncSpec

  // ----- Which calls a step makes -----

  predicate Polls(row: Link) {
    row.state == Submitted && row.ragFileId.Some?
  }

  predicate Rekeys(row: Link, a: Answers) {
    row.state == Pending && row.ragFileId.Some? && a.rekeyObject.Present?
  }

  /** The index answered the re-key that the content is not what it indexed. */
  predicate SawOtherContent(row: Link, a: Answers) {
    Rekeys(row, a) && a.rekey.Http? && a.rekey.error.status == 409 && a.rekey.error.code == Some(ContentChangedError)
  }

  predicate Deletes(row: Link, a: Answers) {
    row.ragFileId.Some? && (row.state in {Removed, Archived, ReindexPending} || SawOtherContent(row, a))
  }

  /** Accepted, not there any more, or busy being deleted. */
  predicate GoneFor(a: Answer<()>) {
    || a.Reply?
    || (a.Http? && a.error.status == 404)
    || (a.Http? && a.error.status == 409 && a.error.code == Some(FileBusy))
  }

  predicate Waits(row: Link) {
    row.state in {Pending, Submitted, ReindexPending}
  }

  /** The row gets to its registration: without an id, or rid of it in this step. */
  predicate ComesToRegister(row: Link, a: Answers) {
    Waits(row) && (row.ragFileId.None? || (Deletes(row, a) && GoneFor(a.deleteVectors)))
  }

  predicate Known(t: ContentType) {
    t in {Pdf, Docx, Xlsx, Jpeg, Png, Webp, Gif}
  }

  predicate Registers(row: Link, a: Answers) {
    ComesToRegister(row, a) && Known(row.contentType) && a.registerObject.Present?
  }

  /** The hash on the row, or that of the object. */
  function HashOf(row: Link, o: ObjectAnswer): Hash
    requires o.Present?
  {
    if row.contentSha256.Some? then row.contentSha256.value else o.digest
  }

  function Only(b: bool, c: Call): seq<Call> {
    if b then [c] else []
  }

  function IdOf(row: Link): RagId {
    if row.ragFileId.Some? then row.ragFileId.value else 0
  }

  function HashSent(row: Link, a: Answers): Hash {
    if a.registerObject.Present? then HashOf(row, a.registerObject) else ""
  }

  /** Images are registered as images, everything else known as documents. */
  function Registration(row: Link, a: Answers): Call {
    Register(row.contentType in {Jpeg, Png, Webp, Gif}, row.userId, HashSent(row, a))
  }

  lemma RegisterCallsExactly(cfg: Config, row: Link, now: Time, a: Answers, made: seq<Call>)
    ensures RegisterStep(cfg, row, now, a, made).calls ==
            made + Only(Known(row.contentType) && a.registerObject.Present?, Registration(row, a))
  {
    hide Backoff, Stamp;
    assert made + [] == made;
  }

  lemma ReindexCallsExactly(cfg: Config, row: Link, now: Time, a: Answers, made: seq<Call>)
    ensures ReindexStep(cfg, row, now, a, made).calls ==
            made + Only(row.ragFileId.Some?, DeleteVectors(IdOf(row)))
            + Only((row.ragFileId.None? || GoneFor(a.deleteVectors)) && Known(row.contentType)
                   && a.registerObject.Present?, Registration(row, a))
  {
    hide RegisterStep, Backoff, Stamp, Registration, Known;
    if row.ragFileId.None? {
      RegisterCallsExactly(cfg, row, now, a, made);
      assert made + [] == made;
    } else {
      var more := made + [DeleteVectors(row.ragFileId.value)];
      assert more + [] == more;
      RegisterCallsExactly(cfg, ClearedRow(row, now), now, a, more);
      Cleared(row, now, a);
    }
  }

  lemma Cleared(row: Link, now: Time, a: Answers)
    ensures Registration(ClearedRow(row, now), a) == Registration(row, a)
    ensures ClearedRow(row, now).contentType == row.contentType
    ensures Registration(ContentChangedRow(row, now), a) == Registration(row, a)
    ensures var r := ContentChangedRow(row, now);
            r.contentType == row.contentType && r.ragFileId == row.ragFileId
  {
  }

  lemma RekeyCallsExactly(cfg: Config, row: Link, now: Time, a: Answers)
    requires row.state == Pending && row.ragFileId.Some?
    ensures RekeyStep(cfg, row, now, a).calls ==
            Only(Rekeys(row, a), Rekey(IdOf(row))) + Only(Deletes(row, a), DeleteVectors(IdOf(row)))
            + Only(Registers(row, a), Registration(row, a))
  {
    hide ReindexStep, Backoff, Stamp, Registration, Known, ContentChangedRow;
    if SawOtherContent(row, a) {
      ReindexCallsExactly(cfg, ContentChangedRow(row, now), now, a, [Rekey(row.ragFileId.value)]);
      Cleared(row, now, a);
    }
  }

  /** The calls of a step, in order: a poll, a re-key, a deletion, a registration, each exactly when it is due. */
  lemma CallsExactly(cfg: Config, row: Link, now: Time, a: Answers)
    ensures Process(cfg, row, now, a).calls ==
            Only(Polls(row), GetFile(IdOf(row))) + Only(Rekeys(row, a), Rekey(IdOf(row)))
            + Only(Deletes(row, a), DeleteVectors(IdOf(row))) + Only(Registers(row, a), Registration(row, a))
  {
    hide RegisterStep, ReindexStep, RekeyStep, Backoff, Stamp, Registration, Known;
    if row.state == Pending && row.ragFileId.Some? {
      RekeyCallsExactly(cfg, row, now, a);
    } else if row.state == ReindexPending {
      ReindexCallsExactly(cfg, row, now, a, []);
    } else if row.ragFileId.None? {
      RegisterCallsExactly(cfg, row, now, a, []);
    }
  }

  // ----- How a step can go -----

  /** A key under the previews of a user's photos, with the name a preview has. */
  ghost predicate PreviewPath(key: string) {
    && (exists head, tail :: key == head + "/photos/previews/" + tail)
    && exists stem :: key == stem + "_thumb.jpg"
  }

  lemma PreviewKeyExactly(key: string)
    ensures IsPreviewKey(key) <==> PreviewPath(key)
  {
    if IsPreviewKey(key) {
      var i :| 0 <= i <= |key| && OccursAt(key, PREVIEW_KEY_MARKER, i);
      assert key == key[..i] + "/photos/previews/" + key[i + 17..];
      assert key == key[..|key| - 10] + "_thumb.jpg";
    }
    if PreviewPath(key) {
      var head, tail :| key == head + "/photos/previews/" + tail;
      var stem :| key == stem + "_thumb.jpg";
      assert OccursAt(key, PREVIEW_KEY_MARKER, |head|);
      assert key[|key| - 10..] == "_thumb.jpg";
    }
  }

  predicate ObjectMissing(row: Link, a: Answers) {
    || (row.state == Pending && row.ragFileId.Some? && a.rekeyObject.Absent?)
    || (ComesToRegister(row, a) && Known(row.contentType) && a.registerObject.Absent?)
  }

  ghost predicate AwaitsPreview(row: Link, a: Answers) {
    ObjectMissing(row, a) && row.contentSha256.None? && PreviewPath(row.s3Key)
  }

  /** One of the calls found the index unavailable. */
  predicate Outage(row: Link, a: Answers) {
    || (Polls(row) && a.getFile.Unavailable?)
    || (Rekeys(row, a) && a.rekey.Unavailable?)
    || (Deletes(row, a) && a.deleteVectors.Unavailable?)
    || (Registers(row, a) && a.register.Unavailable?)
  }

  predicate Leaving(row: Link) {
    row.state == Removed || row.state == Archived
  }

  predicate DeletionRefused(row: Link, a: Answers) {
    Leaving(row) && Deletes(row, a) && a.deleteVectors.Http? && !GoneFor(a.deleteVectors)
  }

  /** What a later attempt may mend. */
  ghost predicate UsesAttempt(row: Link, a: Answers) {
    Outage(row, a) || AwaitsPreview(row, a) || DeletionRefused(row, a)
  }

  predicate LastAttempt(cfg: Config, row: Link) {
    row.attempts + 1 >= cfg.maxAttempts
  }

  /** An unforeseen exception in a call or while the object was read. */
  predicate Crashes(row: Link, a: Answers) {
    || (Polls(row) && a.getFile.Crash?)
    || (row.state == Pending && row.ragFileId.Some? && a.rekeyObject.Broken?)
    || (Rekeys(row, a) && a.rekey.Crash?)
    || (Deletes(row, a) && a.deleteVectors.Crash?)
    || (ComesToRegister(row, a) && Known(row.contentType) && a.registerObject.Broken?)
    || (Registers(row, a) && a.register.Crash?)
  }

  /** A registration answered with a card, or refused as a duplicate of an entry it names. */
  predicate Accepted(row: Link, a: Answers) {
    && Registers(row, a)
    && (|| a.register.Reply?
        || (a.register.Http? && a.register.error.status == 409 && a.register.error.code == Some(DuplicateFile)
            && a.register.error.detailFileId.Some?))
  }

  predicate SaysReady(row: Link, a: Answers) {
    Polls(row) && a.getFile.Reply? && a.getFile.value.status == Ready
  }

  predicate Rekeyed(row: Link, a: Answers) {
    Rekeys(row, a) && a.rekey.Reply?
  }

  predicate FoundGone(row: Link, a: Answers) {
    Polls(row) && (|| (a.getFile.Http? && a.getFile.error.status == 404)
                   || (a.getFile.Reply? && (a.getFile.value.status == Deleting || a.getFile.value.status == Deleted)))
  }

  predicate Confirmed(row: Link, a: Answers) {
    Leaving(row) && (row.ragFileId.None? || GoneFor(a.deleteVectors))
  }

  predicate Succeeds(row: Link, a: Answers) {
    Accepted(row, a) || SaysReady(row, a) || Rekeyed(row, a) || FoundGone(row, a) || Confirmed(row, a)
  }

  /** The index has had the row for as long as it may take. */
  predicate TookTooLong(cfg: Config, row: Link, now: Time) {
    now - row.updatedAt >= cfg.maxWaitSeconds * 1_000_000
  }

  predicate StillIndexing(row: Link, a: Answers) {
    Polls(row) && a.getFile.Reply? && a.getFile.value.status == StillWorking
  }

  predicate SaysError(row: Link, a: Answers) {
    Polls(row) && a.getFile.Reply? && a.getFile.value.status == Errored
  }

  /** An HTTP error that no later attempt would mend, and the call that met it. */
  predicate HttpFailure(row: Link, a: Answers) {
    || (Polls(row) && a.getFile.Http? && a.getFile.error.status != 404)
    || (Rekeys(row, a) && a.rekey.Http? && !SawOtherContent(row, a))
    || (Deletes(row, a) && !Leaving(row) && a.deleteVectors.Http? && !GoneFor(a.deleteVectors))
    || (Registers(row, a) && a.register.Http? && !Accepted(row, a))
  }

  ghost predicate FailsAtOnce(cfg: Config, row: Link, now: Time, a: Answers) {
    || HttpFailure(row, a)
    || SaysError(row, a)
    || (StillIndexing(row, a) && TookTooLong(cfg, row, now))
    || (ObjectMissing(row, a) && !AwaitsPreview(row, a))
  }

  predicate Unsupported(row: Link, a: Answers) {
    ComesToRegister(row, a) && !Known(row.contentType)
  }

  /** The row is left in the queue to be tried again. */
  ghost predicate StaysQueued(cfg: Config, row: Link, now: Time, a: Answers) {
    || Crashes(row, a)
    || (UsesAttempt(row, a) && !LastAttempt(cfg, row))
    || (StillIndexing(row, a) && !TookTooLong(cfg, row, now))
  }

  // ----- Which state follows -----

  ghost predicate StateFollows(cfg: Config, row: Link, now: Time, a: Answers, after: LinkState) {
    && (after == Indexed <==> row.state == Indexed || SaysReady(row, a) || Rekeyed(row, a))
    && (after == Submitted <==> Accepted(row, a) || (row.state == Submitted && StaysQueued(cfg, row, now, a)))
    && (after == Removed <==>
          || FoundGone(row, a)
          || (row.state == Removed && (Confirmed(row, a) || StaysQueued(cfg, row, now, a))))
    && (after == Archived <==> row.state == Archived && (Confirmed(row, a) || StaysQueued(cfg, row, now, a)))
    && (after == Failed <==>
          || row.state == Failed || FailsAtOnce(cfg, row, now, a)
          || ((Outage(row, a) || DeletionRefused(row, a)) && LastAttempt(cfg, row)))
    && (after == Skipped <==>
          row.state == Skipped || Unsupported(row, a) || (AwaitsPreview(row, a) && LastAttempt(cfg, row)))
    && (after == ReindexPending <==>
          (row.state == ReindexPending || SawOtherContent(row, a)) && StaysQueued(cfg, row, now, a))
    && (after == Pending <==>
          row.state == Pending && !SawOtherContent(row, a) && StaysQueued(cfg, row, now, a))
  }

  ghost predicate OutcomeFollows(cfg: Config, row: Link, now: Time, a: Answers, o: Outcome) {
    && (o == Transitioned <==> Succeeds(row, a))
    && (o == Retried <==> StaysQueued(cfg, row, now, a) && !Crashes(row, a))
    && (o == SkippedOutcome <==>
          || row.state in {Indexed, Failed, Skipped}
          || Unsupported(row, a) || (AwaitsPreview(row, a) && LastAttempt(cfg, row)))
  }

  // ----- What the columns hold -----

  function CardOf(row: Link, a: Answers): RagId {
    if SaysReady(row, a) then a.getFile.value.fileId
    else if Rekeyed(row, a) then a.rekey.value.fileId
    else if Accepted(row, a) && a.register.Reply? then a.register.value.fileId
    else if Accepted(row, a) then a.register.error.detailFileId.value
    else 0
  }

  ghost predicate IdFollows(row: Link, a: Answers, after: Option<RagId>) {
    && (SaysReady(row, a) || Rekeyed(row, a) || Accepted(row, a) ==> after == Some(CardOf(row, a)))
    && (!(SaysReady(row, a) || Rekeyed(row, a) || Accepted(row, a)) ==>
          after == if Waits(row) && Deletes(row, a) && GoneFor(a.deleteVectors) then None else row.ragFileId)
  }

  ghost predicate HashFollows(row: Link, a: Answers, after: Option<Hash>) {
    && (Accepted(row, a) ==> after == Some(HashOf(row, a.registerObject)))
    && (Rekeyed(row, a) ==> after == Some(HashOf(row, a.rekeyObject)))
    && (!Accepted(row, a) && !Rekeyed(row, a) ==> after == row.contentSha256)
  }

  ghost predicate AttemptsFollow(row: Link, a: Answers, after: nat) {
    after == if Succeeds(row, a) then 0 else if UsesAttempt(row, a) then row.attempts + 1 else row.attempts
  }

  ghost predicate ScheduleFollows(cfg: Config, row: Link, now: Time, a: Answers, after: Option<Time>) {
    && (FoundGone(row, a) || Confirmed(row, a) ==> after == Some(253_370_764_800_000_000))
    && (UsesAttempt(row, a) && !LastAttempt(cfg, row) ==> after == Some(now + Backoff(row.attempts + 1)))
    && (StillIndexing(row, a) && !TookTooLong(cfg, row, now) ==> after == Some(now + Backoff(row.attempts)))
    && (Crashes(row, a) ==> after == if SawOtherContent(row, a) then None else row.nextAttemptAt)
    && (!FoundGone(row, a) && !Confirmed(row, a) && !StaysQueued(cfg, row, now, a) ==>
          row.state in {Indexed, Failed, Skipped} || after == None)
  }

  /** The code of the body, or the name of the status. */
  function CodeOf(e: HttpError): ErrorCode {
    if e.code.Some? then e.code.value else HttpStatus(e.status)
  }

  /** What the call that met an HTTP error leaves as the row's error. */
  ghost predicate HttpErrorFollows(row: Link, a: Answers, after: Option<ErrorCode>) {
    && (Polls(row) && a.getFile.Http? ==> after == Some(CodeOf(a.getFile.error)))
    && (Rekeys(row, a) && a.rekey.Http? && !SawOtherContent(row, a) ==>
          after == if a.rekey.error.status == 404 && a.rekey.error.code.None? then Some(ObjectNotFound)
                   else Some(CodeOf(a.rekey.error)))
    && (Deletes(row, a) && a.deleteVectors.Http? && !GoneFor(a.deleteVectors) ==>
          after == Some(CodeOf(a.deleteVectors.error)))
    && (Registers(row, a) && a.register.Http? ==>
          after == if a.register.error.status == 409 && a.register.error.code == Some(DuplicateFile)
                   then Some(DuplicateConflict) else Some(CodeOf(a.register.error)))
  }

  function OutageOf(row: Link, a: Answers): Option<ErrorCode> {
    if Polls(row) && a.getFile.Unavailable? then a.getFile.code
    else if Rekeys(row, a) && a.rekey.Unavailable? then a.rekey.code
    else if Deletes(row, a) && a.deleteVectors.Unavailable? then a.deleteVectors.code
    else if a.register.Unavailable? then a.register.code
    else None
  }

  ghost predicate ErrorFollows(cfg: Config, row: Link, now: Time, a: Answers, after: Option<ErrorCode>) {
    && (Succeeds(row, a) ==> after == None)
    && (HttpFailure(row, a) || DeletionRefused(row, a) ==> HttpErrorFollows(row, a, after))
    && (SaysError(row, a) ==>
          after == if a.getFile.value.error.Some? then a.getFile.value.error else Some(ErrorStatus))
    && (StillIndexing(row, a) ==> after == if TookTooLong(cfg, row, now) then Some(Timeout) else row.lastErrorCode)
    && (ObjectMissing(row, a) ==> after == if AwaitsPreview(row, a) then Some(PreviewMissing) else Some(ObjectNotFound))
    && (Unsupported(row, a) ==> after == Some(UnsupportedType))
    && (Crashes(row, a) ==> after == if SawOtherContent(row, a) then Some(ContentChangedError) else row.lastErrorCode)
    && (Outage(row, a) ==>
          after == if row.state == Submitted && !LastAttempt(cfg, row) then row.lastErrorCode
                   else if OutageOf(row, a).Some? then OutageOf(row, a) else Some(DependencyUnavailable))
  }

  /** The clock moves exactly when one of the visible columns does. */
  ghost predicate ClockFollows(row: Link, now: Time, after: Link) {
    after.updatedAt ==
    if after.state == row.state && after.ragFileId == row.ragFileId && after.lastErrorCode == row.lastErrorCode
       && after.contentSha256 == row.contentSha256
    then row.updatedAt else now
  }

  ghost predicate Follows(cfg: Config, row: Link, now: Time, a: Answers, s: Step) {
    && StateFollows(cfg, row, now, a, s.row.state)
    && OutcomeFollows(cfg, row, now, a, s.outcome)
    && IdFollows(row, a, s.row.ragFileId)
    && HashFollows(row, a, s.row.contentSha256)
    && AttemptsFollow(row, a, s.row.attempts)
    && ScheduleFollows(cfg, row, now, a, s.row.nextAttemptAt)
    && ErrorFollows(cfg, row, now, a, s.row.lastErrorCode)
    && ClockFollows(row, now, s.row)
  }

  // ----- The parts of a step -----

  lemma RetryWrites(cfg: Config, row: Link, now: Time, code: ErrorCode, calls: seq<Call>)
    ensures var s := Retry(cfg, row, now, code, calls);
            && s.row.ragFileId == row.ragFileId && s.row.contentSha256 == row.contentSha256
            && s.row.attempts == row.attempts + 1
            && s.row.state == (if LastAttempt(cfg, row) then Failed else row.state)
            && s.outcome == (if LastAttempt(cfg, row) then FailedOutcome else Retried)
            && s.row.nextAttemptAt == (if LastAttempt(cfg, row) then None else Some(now + Backoff(row.attempts + 1)))
            && s.row.lastErrorCode == (if row.state == Submitted && !LastAttempt(cfg, row) then row.lastErrorCode
                                       else Some(code))
            && ClockFollows(row, now, s.row)
  {
    hide Backoff;
  }

  lemma PollOutageFollows(cfg: Config, row: Link, now: Time, a: Answers)
    requires Polls(row) && a.getFile.Unavailable?
    ensures Follows(cfg, row, now, a, PollStep(cfg, row, now, a))
  {
    hide Backoff, PreviewPath, Retry, ClockFollows;
    RetryWrites(cfg, row, now, OutageCode(a.getFile.code), [GetFile(row.ragFileId.value)]);
  }

  lemma PollFollows(cfg: Config, row: Link, now: Time, a: Answers)
    requires Polls(row) && !a.getFile.Unavailable?
    ensures Follows(cfg, row, now, a, PollStep(cfg, row, now, a))
  {
    hide Backoff, PreviewPath, Retry;
  }

  lemma StoppedRemovalFollows(cfg: Config, row: Link, now: Time, a: Answers)
    requires Leaving(row) && row.ragFileId.Some? && !GoneFor(a.deleteVectors)
    ensures Follows(cfg, row, now, a, RemoveStep(cfg, row, now, a))
  {
    hide Backoff, PreviewPath, Retry, SettledRow, ClockFollows;
    var calls := [DeleteVectors(row.ragFileId.value)];
    if a.deleteVectors.Unavailable? {
      RetryWrites(cfg, row, now, OutageCode(a.deleteVectors.code), calls);
    } else if a.deleteVectors.Http? {
      RetryWrites(cfg, row, now, HttpErrorCode(a.deleteVectors.error), calls);
    } else {
      assert ClockFollows(row, now, row) by { Unmoved(row, now); }
    }
  }

  lemma Unmoved(row: Link, now: Time)
    ensures ClockFollows(row, now, row)
  {
  }

  lemma ConfirmedRemovalFollows(cfg: Config, row: Link, now: Time, a: Answers)
    requires Confirmed(row, a)
    ensures Follows(cfg, row, now, a, RemoveStep(cfg, row, now, a))
  {
    hide Backoff, PreviewPath, Retry;
  }

  lemma UnsentFollows(cfg: Config, row: Link, now: Time, a: Answers, made: seq<Call>)
    requires Waits(row) && row.ragFileId.None? && !Registers(row, a) && !ObjectMissing(row, a)
    ensures Follows(cfg, row, now, a, RegisterStep(cfg, row, now, a, made))
  {
    hide Backoff, PreviewPath, Miss;
  }

  lemma MissingFollows(cfg: Config, row: Link, now: Time, a: Answers, made: seq<Call>)
    requires Waits(row) && row.ragFileId.None? && ObjectMissing(row, a)
    ensures Follows(cfg, row, now, a, RegisterStep(cfg, row, now, a, made))
  {
    hide Backoff, PreviewPath, IsPreviewKey;
    PreviewKeyExactly(row.s3Key);
  }

  lemma CrashedFollows(cfg: Config, row: Link, now: Time, a: Answers, made: seq<Call>)
    requires Waits(row) && row.ragFileId.None? && Registers(row, a) && a.register.Crash?
    ensures Follows(cfg, row, now, a, RegisterStep(cfg, row, now, a, made))
  {
    hide Backoff, PreviewPath, Miss, Retry;
  }

  lemma OutageFollows(cfg: Config, row: Link, now: Time, a: Answers, made: seq<Call>)
    requires Waits(row) && row.ragFileId.None? && Registers(row, a) && a.register.Unavailable?
    ensures Follows(cfg, row, now, a, RegisterStep(cfg, row, now, a, made))
  {
    hide Backoff, PreviewPath, Miss, Retry, ClockFollows;
    var digest := SentDigest(row, a.registerObject.digest);
    RetryWrites(cfg, row, now, OutageCode(a.register.code),
                made + [Register(!IsDocument(row), row.userId, digest)]);
  }

  lemma RepliedFollows(cfg: Config, row: Link, now: Time, a: Answers, made: seq<Call>)
    requires Waits(row) && row.ragFileId.None? && Registers(row, a) && a.register.Reply?
    ensures Follows(cfg, row, now, a, RegisterStep(cfg, row, now, a, made))
  {
    hide Backoff, PreviewPath, Miss, Retry;
  }

  lemma FailWrites(row: Link, now: Time, code: ErrorCode)
    ensures var r := FailedRow(row, now, code);
            && r.state == Failed && r.ragFileId == row.ragFileId && r.contentSha256 == row.contentSha256
            && r.attempts == row.attempts && r.nextAttemptAt.None? && r.lastErrorCode == Some(code)
            && ClockFollows(row, now, r)
  {
  }

  lemma AdoptedFollows(cfg: Config, row: Link, now: Time, a: Answers, made: seq<Call>)
    requires Waits(row) && row.ragFileId.None? && Accepted(row, a) && a.register.Http?
    ensures Follows(cfg, row, now, a, RegisterStep(cfg, row, now, a, made))
  {
    hide Backoff, PreviewPath, Miss, Retry;
  }

  lemma RefusedFollows(cfg: Config, row: Link, now: Time, a: Answers, made: seq<Call>)
    requires Waits(row) && row.ragFileId.None? && Registers(row, a) && !Accepted(row, a) && a.register.Http?
    ensures Follows(cfg, row, now, a, RegisterStep(cfg, row, now, a, made))
  {
    hide Backoff, PreviewPath, Miss, Retry, FailedRow, SucceededRow, ClockFollows;
    FailWrites(row, now, DuplicateConflict);
    FailWrites(row, now, HttpErrorCode(a.register.error));
  }

  lemma RegisterFollows(cfg: Config, row: Link, now: Time, a: Answers, made: seq<Call>)
    requires Waits(row) && row.ragFileId.None?
    ensures Follows(cfg, row, now, a, RegisterStep(cfg, row, now, a, made))
  {
    hide Follows, RegisterStep, ObjectMissing;
    if ObjectMissing(row, a) {
      MissingFollows(cfg, row, now, a, made);
    } else if !Registers(row, a) {
      UnsentFollows(cfg, row, now, a, made);
    } else if a.register.Crash? {
      CrashedFollows(cfg, row, now, a, made);
    } else if a.register.Unavailable? {
      OutageFollows(cfg, row, now, a, made);
    } else if a.register.Reply? {
      RepliedFollows(cfg, row, now, a, made);
    } else if Accepted(row, a) {
      AdoptedFollows(cfg, row, now, a, made);
    } else {
      RefusedFollows(cfg, row, now, a, made);
    }
  }

  lemma KeptIdFollows(cfg: Config, row: Link, now: Time, a: Answers, made: seq<Call>)
    requires row.state == ReindexPending && row.ragFileId.Some? && !GoneFor(a.deleteVectors)
    ensures Follows(cfg, row, now, a, ReindexStep(cfg, row, now, a, made))
  {
    hide Backoff, PreviewPath, RegisterStep;
  }

  lemma DroppedIdFollows(cfg: Config, row: Link, now: Time, a: Answers, made: seq<Call>)
    requires row.state == ReindexPending && row.ragFileId.Some? && GoneFor(a.deleteVectors)
    ensures Follows(cfg, row, now, a, ReindexStep(cfg, row, now, a, made))
  {
    hide Backoff, PreviewPath, RegisterStep;
    RegisterFollows(cfg, ClearedRow(row, now), now, a, made + [DeleteVectors(row.ragFileId.value)]);
  }

  lemma ReindexFollows(cfg: Config, row: Link, now: Time, a: Answers, made: seq<Call>)
    requires row.state == ReindexPending
    ensures Follows(cfg, row, now, a, ReindexStep(cfg, row, now, a, made))
  {
    hide Follows, RegisterStep;
    if row.ragFileId.None? {
      RegisterFollows(cfg, row, now, a, made);
    } else if GoneFor(a.deleteVectors) {
      DroppedIdFollows(cfg, row, now, a, made);
    } else {
      KeptIdFollows(cfg, row, now, a, made);
    }
  }

  /** Rid of its content change, the row goes on as one that waits to be reindexed. */
  lemma OtherContentFollows(cfg: Config, row: Link, now: Time, a: Answers)
    requires SawOtherContent(row, a)
    ensures Follows(cfg, row, now, a, RekeyStep(cfg, row, now, a))
  {
    hide Backoff, PreviewPath, ReindexStep;
    ReindexFollows(cfg, ContentChangedRow(row, now), now, a, [Rekey(row.ragFileId.value)]);
  }

  lemma UnreadFollows(cfg: Config, row: Link, now: Time, a: Answers)
    requires row.state == Pending && row.ragFileId.Some? && !a.rekeyObject.Present?
    ensures Follows(cfg, row, now, a, RekeyStep(cfg, row, now, a))
  {
    hide Backoff, PreviewPath, IsPreviewKey, ReindexStep, Retry;
    PreviewKeyExactly(row.s3Key);
  }

  lemma RekeyFollows(cfg: Config, row: Link, now: Time, a: Answers)
    requires Rekeys(row, a) && !SawOtherContent(row, a)
    ensures Follows(cfg, row, now, a, RekeyStep(cfg, row, now, a))
  {
    hide Backoff, PreviewPath, ReindexStep, Miss;
  }

  /** Nothing happens to a row outside the queue. */
  lemma IdleFollows(cfg: Config, row: Link, now: Time, a: Answers)
    requires row.state in {Indexed, Failed, Skipped}
    ensures Follows(cfg, row, now, a, Process(cfg, row, now, a)) && Process(cfg, row, now, a).row == row
  {
    hide Backoff, PreviewPath, PollStep, RekeyStep, ReindexStep, RegisterStep, RemoveStep;
  }

  /** Every row, every answer: the state, the outcome and each column after a step. */
  lemma StepFollows(cfg: Config, row: Link, now: Time, a: Answers)
    ensures Follows(cfg, row, now, a, Process(cfg, row, now, a))
  {
    hide Follows, PollStep, RekeyStep, ReindexStep, RegisterStep, RemoveStep, SawOtherContent;
    if row.state in {Indexed, Failed, Skipped} {
      IdleFollows(cfg, row, now, a);
    } else if Leaving(row) {
      if Confirmed(row, a) {
        ConfirmedRemovalFollows(cfg, row, now, a);
      } else {
        StoppedRemovalFollows(cfg, row, now, a);
      }
    } else if row.state == ReindexPending {
      ReindexFollows(cfg, row, now, a, []);
    } else if row.ragFileId.None? {
      RegisterFollows(cfg, row, now, a, []);
    } else if row.state == Submitted {
      if a.getFile.Unavailable? {
        PollOutageFollows(cfg, row, now, a);
      } else {
        PollFollows(cfg, row, now, a);
      }
    } else if !a.rekeyObject.Present? {
      UnreadFollows(cfg, row, now, a);
    } else if SawOtherContent(row, a) {
      OtherContentFollows(cfg, row, now, a);
    } else {
      RekeyFollows(cfg, row, now, a);
    }
  }

  // ----- The states that follow -----

  /** What a poll leads to: each state exactly for the answers that call for it. */
  lemma PolledState(cfg: Config, row: Link, now: Time, a: Answers)
    requires row.state == Submitted && row.ragFileId.Some?
    ensures var s := Process(cfg, row, now, a);
            && (s.row.state == Indexed <==> a.getFile.Reply? && a.getFile.value.status == Ready)
            && (s.row.state == Removed <==>
                  || (a.getFile.Http? && a.getFile.error.status == 404)
                  || (a.getFile.Reply? && a.getFile.value.status in {Deleting, Deleted}))
            && (s.row.state == Failed <==>
                  || (a.getFile.Http? && a.getFile.error.status != 404)
                  || (a.getFile.Reply? && a.getFile.value.status == Errored)
                  || (a.getFile.Reply? && a.getFile.value.status == StillWorking
                      && now - row.updatedAt >= cfg.maxWaitSeconds * 1_000_000)
                  || (a.getFile.Unavailable? && row.attempts + 1 >= cfg.maxAttempts))
            && s.row.state in {Indexed, Removed, Failed, Submitted}
  {
    hide Backoff, PreviewPath, Process, OutcomeFollows, IdFollows, HashFollows, AttemptsFollow, ScheduleFollows,
         ErrorFollows, ClockFollows;
    StepFollows(cfg, row, now, a);
  }

  /** A step makes a row INDEXED exactly when its poll said ready or its re-key was answered with a card. */
  lemma BecomesIndexed(cfg: Config, row: Link, now: Time, a: Answers)
    requires row.state != Indexed
    ensures Process(cfg, row, now, a).row.state == Indexed <==>
            && row.ragFileId.Some?
            && (|| (row.state == Submitted && a.getFile.Reply? && a.getFile.value.status == Ready)
                || (row.state == Pending && a.rekeyObject.Present? && a.rekey.Reply?))
  {
    hide Backoff, PreviewPath, Process, OutcomeFollows, IdFollows, HashFollows, AttemptsFollow, ScheduleFollows,
         ErrorFollows, ClockFollows;
    StepFollows(cfg, row, now, a);
  }

  /** The wait starts at thirty seconds and doubles with each attempt, up to an hour. */
  lemma BackoffDoubles(attempts: nat)
    ensures Backoff(0) == 30 * 1_000_000
    ensures Backoff(attempts + 1) == Min(3600 * 1_000_000, 2 * Backoff(attempts))
  {
    Pow2AtLeast(attempts);
    assert Pow2(attempts + 1) == 2 * Pow2(attempts);
  }

  /** The states of the queue are those in which a step can do something. */
  lemma DueStatesAreBusy(cfg: Config, row: Link, now: Time)
    ensures InDueState(row.state) ==> exists a :: Process(cfg, row, now, a) != Step(row, SkippedOutcome, [])
    ensures !InDueState(row.state) ==> forall a :: Process(cfg, row, now, a) == Step(row, SkippedOutcome, [])
  {
    hide Backoff, PreviewPath, Process, Follows;
    var a := Answers(Broken, Broken, Crash, Crash, Crash, Crash);
    if InDueState(row.state) { CrashIsNoticed(cfg, row, now, a); }
    if !InDueState(row.state) {
      forall a' ensures Process(cfg, row, now, a') == Step(row, SkippedOutcome, []) {
        IdleStep(cfg, row, now, a');
      }
    }
  }

  lemma IdleStep(cfg: Config, row: Link, now: Time, a: Answers)
    requires !InDueState(row.state)
    ensures Process(cfg, row, now, a) == Step(row, SkippedOutcome, [])
  {
  }

  lemma CrashIsNoticed(cfg: Config, row: Link, now: Time, a: Answers)
    requires InDueState(row.state) && a == Answers(Broken, Broken, Crash, Crash, Crash, Crash)
    ensures Process(cfg, row, now, a) != Step(row, SkippedOutcome, [])
  {
    hide Backoff;
  }
}
