/** What every reachable row keeps, through request-path marks, notifications and sync steps. */
module RowInvariant {
  import opened Common
  import opened IndexLinks
  import opened RegistrationTarget
  import opened LinkRepository
  import opened SyncSpec
  import opened SyncTermination
  import opened SyncJob

  // The longest backoff; a clock this close to the removal stamp could forge it.
  const LAST_CLOCK := CONFIRMED_REMOVAL_AT - BACKOFF_CAP_SECONDS * SECOND - 1

  predicate Sound(row: Link) {
    && row.section != Private
    && (row.state == Submitted || row.state == Indexed ==> row.ragFileId.Some?)
    && (row.state == Indexed ==> row.nextAttemptAt.None? && row.lastErrorCode.None?)
    && (row.state == Failed || row.state == Skipped ==> row.nextAttemptAt.None? && row.lastErrorCode.Some?)
    && (row.nextAttemptAt.Some? ==> row.nextAttemptAt.value <= CONFIRMED_REMOVAL_AT)
    && (row.nextAttemptAt == Some(CONFIRMED_REMOVAL_AT) ==> row.state == Removed || row.state == Archived)
    && row.createdAt <= row.updatedAt <= LAST_CLOCK
  }

  datatype RowEvent =
    | ContentChanged(d: RegistrationDecision)
    | Rekeyed(key: string)
    | MarkedRemoved
    | MarkedArchived
    | Retried
    | Synced(a: Answers)
    | Notified(a: Answers)

  /** The states an immediate notification acts on. */
  predicate ShouldNotify(row: Link) {
    && (row.section == Files || row.section == Photos)
    && (row.state == Removed || (row.state == Pending && row.ragFileId.None?))
  }

  predicate Possible(row: Link, ev: RowEvent, now: Time) {
    && row.updatedAt <= now <= LAST_CLOCK
    && (ev.Retried? ==> row.state == Failed)
    && (ev.Synced? ==> Due(row, now))
    && (ev.Notified? ==> ShouldNotify(row))
  }

  function AfterEvent(cfg: Config, row: Link, ev: RowEvent, now: Time): Link {
    match ev
    case ContentChanged(d) => ContentChangedMark(row, d, now)
    case Rekeyed(key) => RekeyMark(row, key, now)
    case MarkedRemoved => RemovedMark(row, now)
    case MarkedArchived => ArchivedMark(row, now)
    case Retried => RetryMark(row, now)
    case Synced(a) => Process(cfg, row, now, a).row
    case Notified(a) => Process(cfg, row, now, a).row
  }

  // ----- One step keeps a sound row sound, even when an exception is swallowed half way -----

  predicate InStep(row: Link, now: Time) {
    Sound(row) && row.updatedAt <= now <= LAST_CLOCK
  }

  lemma Stamped(before: Link, after: Link, now: Time)
    ensures var stamped := Stamp(before, after, now);
            stamped == after.(updatedAt := stamped.updatedAt)
              && (stamped.updatedAt == before.updatedAt || stamped.updatedAt == now)
  {
  }

  lemma WrittenSound(row: Link, now: Time, rag: RagId, digest: Hash, code: ErrorCode)
    requires InStep(row, now)
    ensures Sound(SucceededRow(row, now, Submitted, rag, digest)) && Sound(SucceededRow(row, now, Indexed, rag, digest))
    ensures Sound(FailedRow(row, now, code)) && Sound(SkippedRow(row, now, code)) && Sound(ReadyRow(row, now, rag))
  {
  }

  lemma RetrySound(cfg: Config, row: Link, now: Time, code: ErrorCode, calls: seq<Call>)
    requires InStep(row, now) && InDueState(row.state)
    ensures Sound(Retry(cfg, row, now, code, calls).row)
  {
    hide Backoff, Stamp;
    BackoffBounds(row.attempts + 1);
    var attempts := row.attempts + 1;
    var waiting := row.(attempts := attempts, nextAttemptAt := Some(now + Backoff(attempts)));
    Stamped(row, waiting, now);
    Stamped(row, waiting.(lastErrorCode := Some(code)), now);
    Stamped(row, row.(state := Failed, nextAttemptAt := None, lastErrorCode := Some(code)), now);
  }

  lemma MissSound(cfg: Config, row: Link, now: Time, calls: seq<Call>)
    requires InStep(row, now) && InDueState(row.state)
    ensures Sound(Miss(cfg, row, now, calls).row)
  {
    hide Backoff, IsPreviewKey, Stamp;
    BackoffBounds(row.attempts + 1);
    var attempts := row.attempts + 1;
    Stamped(row, row.(attempts := attempts, nextAttemptAt := Some(now + Backoff(attempts)),
                      lastErrorCode := Some(PreviewMissing)), now);
    Stamped(row, row.(state := Failed, nextAttemptAt := None, lastErrorCode := Some(ObjectNotFound)), now);
    Stamped(row, row.(state := Skipped, nextAttemptAt := None, lastErrorCode := Some(PreviewMissing)), now);
  }

  lemma RegisteredSound(cfg: Config, row: Link, now: Time, a: Answers, calls: seq<Call>, digest: Hash)
    requires InStep(row, now) && InDueState(row.state) && (IsDocument(row) || IsImage(row))
    requires a.registerObject.Present? && digest == SentDigest(row, a.registerObject.digest)
    ensures Sound(RegisterStep(cfg, row, now, a, calls).row)
  {
    hide Retry, Miss;
    match a.register
    case Crash =>
    case Unavailable(code) =>
      RetrySound(cfg, row, now, OutageCode(code), calls + [Register(!IsDocument(row), row.userId, digest)]);
    case Reply(card) => WrittenSound(row, now, card.fileId, digest, ObjectNotFound);
    case Http(e) =>
      WrittenSound(row, now, e.detailFileId.GetOr(0), digest, DuplicateConflict);
      WrittenSound(row, now, 0, digest, HttpErrorCode(e));
  }

  lemma RegisterSound(cfg: Config, row: Link, now: Time, a: Answers, calls: seq<Call>)
    requires InStep(row, now) && InDueState(row.state)
    ensures Sound(RegisterStep(cfg, row, now, a, calls).row)
  {
    WrittenSound(row, now, 0, "", UnsupportedType);
    MissSound(cfg, row, now, calls);
    if a.registerObject.Present? && (IsDocument(row) || IsImage(row)) {
      RegisteredSound(cfg, row, now, a, calls, SentDigest(row, a.registerObject.digest));
    }
  }

  lemma ReindexSound(cfg: Config, row: Link, now: Time, a: Answers, calls: seq<Call>)
    requires InStep(row, now) && row.state == ReindexPending
    ensures Sound(ReindexStep(cfg, row, now, a, calls).row)
  {
    if row.ragFileId.None? {
      RegisterSound(cfg, row, now, a, calls);
    } else {
      var more := calls + [DeleteVectors(row.ragFileId.value)];
      if a.deleteVectors.Unavailable? {
        RetrySound(cfg, row, now, OutageCode(a.deleteVectors.code), more);
      }
      RegisterSound(cfg, ClearedRow(row, now), now, a, more);
    }
  }

  lemma RekeySound(cfg: Config, row: Link, now: Time, a: Answers)
    requires InStep(row, now) && row.state == Pending && row.ragFileId.Some?
    ensures Sound(RekeyStep(cfg, row, now, a).row)
  {
    hide Miss, Retry, ReindexStep, SucceededRow, FailedRow;
    WrittenSound(row, now, if a.rekey.Reply? then a.rekey.value.fileId else 0,
                 if a.rekeyObject.Present? then SentDigest(row, a.rekeyObject.digest) else "", ObjectNotFound);
    WrittenSound(row, now, 0, "", if a.rekey.Http? then a.rekey.error.code.GetOr(ObjectNotFound) else ObjectNotFound);
    WrittenSound(row, now, 0, "", if a.rekey.Http? then HttpErrorCode(a.rekey.error) else ObjectNotFound);
    MissSound(cfg, row, now, []);
    var calls := [Rekey(row.ragFileId.value)];
    if a.rekey.Unavailable? {
      RetrySound(cfg, row, now, OutageCode(a.rekey.code), calls);
    }
    ReindexSound(cfg, ContentChangedRow(row, now), now, a, calls);
  }

  lemma PolledCardSound(cfg: Config, row: Link, now: Time, a: Answers, card: Card)
    requires InStep(row, now) && row.state == Submitted && a.getFile == Reply(card)
    ensures Sound(PollStep(cfg, row, now, a).row)
  {
    BackoffBounds(row.attempts);
    WrittenSound(row, now, card.fileId, "", card.error.GetOr(ErrorStatus));
    if card.status == StillWorking { WrittenSound(row, now, 0, "", Timeout); }
  }

  lemma PollSound(cfg: Config, row: Link, now: Time, a: Answers)
    requires InStep(row, now) && row.state == Submitted
    ensures Sound(PollStep(cfg, row, now, a).row)
  {
    match a.getFile
    case Crash =>
    case Unavailable(code) => RetrySound(cfg, row, now, OutageCode(code), [GetFile(row.ragFileId.value)]);
    case Http(e) => WrittenSound(row, now, 0, "", HttpErrorCode(e));
    case Reply(card) => PolledCardSound(cfg, row, now, a, card);
  }

  lemma RemoveSound(cfg: Config, row: Link, now: Time, a: Answers)
    requires InStep(row, now) && (row.state == Removed || row.state == Archived)
    ensures Sound(RemoveStep(cfg, row, now, a).row)
  {
    if row.ragFileId.Some? {
      var calls := [DeleteVectors(row.ragFileId.value)];
      if a.deleteVectors.Unavailable? { RetrySound(cfg, row, now, OutageCode(a.deleteVectors.code), calls); }
      if a.deleteVectors.Http? { RetrySound(cfg, row, now, HttpErrorCode(a.deleteVectors.error), calls); }
    }
  }

  lemma ProcessSound(cfg: Config, row: Link, now: Time, a: Answers)
    requires InStep(row, now)
    ensures Sound(Process(cfg, row, now, a).row)
  {
    match row.state
    case Removed => RemoveSound(cfg, row, now, a);
    case Archived => RemoveSound(cfg, row, now, a);
    case ReindexPending => ReindexSound(cfg, row, now, a, []);
    case Submitted => PollSound(cfg, row, now, a);
    case Pending =>
      if row.ragFileId.None? { RegisterSound(cfg, row, now, a, []); } else { RekeySound(cfg, row, now, a); }
    case Indexed =>
    case Failed =>
    case Skipped =>
  }

  lemma EventKeepsSound(cfg: Config, row: Link, ev: RowEvent, now: Time)
    requires Sound(row) && Possible(row, ev, now)
    ensures Sound(AfterEvent(cfg, row, ev, now))
  {
    match ev
    case Synced(a) => ProcessSound(cfg, row, now, a);
    case Notified(a) => ProcessSound(cfg, row, now, a);
    case _ =>
  }

  // ----- Runs of events -----

  datatype Timed = Timed(ev: RowEvent, now: Time)

  function AfterEvents(cfg: Config, row: Link, run: seq<Timed>): Link
    decreases |run|
  {
    if run == [] then row else AfterEvents(cfg, AfterEvent(cfg, row, run[0].ev, run[0].now), run[1..])
  }

  ghost predicate PossibleRun(cfg: Config, row: Link, run: seq<Timed>)
    decreases |run|
  {
    run == [] ||
    (Possible(row, run[0].ev, run[0].now)
     && PossibleRun(cfg, AfterEvent(cfg, row, run[0].ev, run[0].now), run[1..]))
  }

  /** Every row that starts as an insert is sound after any run of events. */
  lemma ReachableIsSound(cfg: Config, id: LinkId, r: FileRecord, d: RegistrationDecision, now: Time, run: seq<Timed>)
    requires r.section != Private && WellFormed(d) && now <= LAST_CLOCK
    requires PossibleRun(cfg, InsertedRow(id, r, d, now), run)
    ensures Sound(AfterEvents(cfg, InsertedRow(id, r, d, now), run))
  {
    SoundRun(cfg, InsertedRow(id, r, d, now), run);
  }

  lemma {:induction false} SoundRun(cfg: Config, row: Link, run: seq<Timed>)
    requires Sound(row) && PossibleRun(cfg, row, run)
    ensures Sound(AfterEvents(cfg, row, run))
    decreases |run|
  {
    if run != [] {
      EventKeepsSound(cfg, row, run[0].ev, run[0].now);
      SoundRun(cfg, AfterEvent(cfg, row, run[0].ev, run[0].now), run[1..]);
    }
  }

  /** A tick of the job keeps the whole table sound. */
  lemma TickKeepsTableSound(cfg: Config, before: map<LinkId, Link>, after: map<LinkId, Link>, claimed: seq<LinkId>,
                            now: Time, world: LinkId -> Answers)
    requires forall id | id in before :: Sound(before[id]) && before[id].updatedAt <= now
    requires now <= LAST_CLOCK && Ticked(cfg, before, after, claimed, now, world)
    ensures forall id | id in after :: Sound(after[id])
  {
    forall id | id in after ensures Sound(after[id]) {
      ProcessSound(cfg, before[id], now, world(id));
    }
  }

  // ----- The id -----

  lemma RegisterKeepsNoId(cfg: Config, row: Link, now: Time, a: Answers, calls: seq<Call>)
    requires row.ragFileId.None?
    ensures var s := RegisterStep(cfg, row, now, a, calls);
            && (s.row.ragFileId.Some? <==> s.outcome == Transitioned)
            && (s.row.ragFileId.Some? ==> s.row.state == Submitted)
            && calls <= s.calls && |s.calls| <= |calls| + 1
            && forall c | c in s.calls[|calls|..] :: c.Register?
  {
    hide Backoff, IsPreviewKey, SameTracked, IsDocument, IsImage;
    assert forall c: Call :: (calls + [c])[|calls|..] == [c];
    assert calls[|calls|..] == [];
  }

  /** When reindexing drops the id: the deletion was confirmed and no registration followed through. */
  lemma ReindexDropsId(cfg: Config, row: Link, now: Time, a: Answers, made: seq<Call>)
    requires row.ragFileId.Some?
    ensures var s := ReindexStep(cfg, row, now, a, made);
            && (s.row.ragFileId.None? <==> ConfirmsGone(a.deleteVectors) && s.outcome != Transitioned)
            && |made| < |s.calls| && s.calls[|made|] == DeleteVectors(row.ragFileId.value)
            && (s.outcome == Transitioned ==> ConfirmsGone(a.deleteVectors))
            && forall k | |made| < k < |s.calls| ::
              s.calls[k].Register? && k == |made| + 1 && ConfirmsGone(a.deleteVectors)
  {
    if ConfirmsGone(a.deleteVectors) {
      RegisterKeepsNoId(cfg, ClearedRow(row, now), now, a, made + [DeleteVectors(row.ragFileId.value)]);
    }
  }

  /** A re-key keeps the id unless the index reports changed content; then it is a reindexing. */
  lemma RekeyDropsId(cfg: Config, row: Link, now: Time, a: Answers)
    requires row.ragFileId.Some?
    ensures var s := RekeyStep(cfg, row, now, a);
            && (s.row.ragFileId.None? <==>
                DeleteVectors(row.ragFileId.value) in s.calls && ConfirmsGone(a.deleteVectors)
                  && s.outcome != Transitioned)
            && forall k | 0 <= k < |s.calls| && s.calls[k].Register? ::
                 k == 2 && s.calls[1] == DeleteVectors(row.ragFileId.value) && ConfirmsGone(a.deleteVectors)
  {
    var calls := [Rekey(row.ragFileId.value)];
    if a.rekeyObject.Present? && a.rekey.Http? && a.rekey.error.status == 409
       && a.rekey.error.code == Some(ContentChangedError)
    {
      ReindexDropsId(cfg, ContentChangedRow(row, now), now, a, calls);
      assert RekeyStep(cfg, row, now, a) == ReindexStep(cfg, ContentChangedRow(row, now), now, a, calls);
    } else {
      RekeyWithoutReindex(cfg, row, now, a);
    }
  }

  lemma RekeyWithoutReindex(cfg: Config, row: Link, now: Time, a: Answers)
    requires row.ragFileId.Some?
    requires !(a.rekeyObject.Present? && a.rekey.Http? && a.rekey.error.status == 409
               && a.rekey.error.code == Some(ContentChangedError))
    ensures var s := RekeyStep(cfg, row, now, a);
            s.row.ragFileId.Some? && forall c | c in s.calls :: c.Rekey?
  {
  }

  /**
   * A step drops the id of a row exactly when it asked for that id to be deleted
   * to make way for new content, the index confirmed it gone, and no
   * registration put a new id in its place.
   */
  lemma IdClearedOnlyWhenGone(cfg: Config, row: Link, now: Time, a: Answers)
    requires row.ragFileId.Some?
    ensures var s := Process(cfg, row, now, a);
            s.row.ragFileId.None? <==>
              && (row.state == ReindexPending || row.state == Pending)
              && DeleteVectors(row.ragFileId.value) in s.calls
              && ConfirmsGone(a.deleteVectors)
              && s.outcome != Transitioned
  {
    if row.state == ReindexPending {
      ReindexDropsId(cfg, row, now, a, []);
    } else if row.state == Pending {
      RekeyDropsId(cfg, row, now, a);
    }
  }

  /** No request-path event touches the id. */
  lemma MarksKeepTheId(cfg: Config, row: Link, ev: RowEvent, now: Time)
    requires !ev.Synced? && !ev.Notified?
    ensures AfterEvent(cfg, row, ev, now).ragFileId == row.ragFileId
  {
  }

  /** Registration is attempted only once the row has no id: it had none, or its id was just confirmed gone. */
  lemma RegistersOnlyWithoutId(cfg: Config, row: Link, now: Time, a: Answers, k: nat)
    requires k < |Process(cfg, row, now, a).calls| && Process(cfg, row, now, a).calls[k].Register?
    ensures row.ragFileId.Some? ==>
              k > 0 && Process(cfg, row, now, a).calls[k - 1] == DeleteVectors(row.ragFileId.value)
              && ConfirmsGone(a.deleteVectors)
  {
    if row.ragFileId.Some? {
      if row.state == ReindexPending {
        ReindexDropsId(cfg, row, now, a, []);
      } else if row.state == Pending {
        RekeyDropsId(cfg, row, now, a);
      }
    }
  }

  // ----- Removed and archived rows -----

  function CallsOf(cfg: Config, row: Link, moves: seq<Move>): seq<Call>
    decreases |moves|
  {
    if moves == [] then []
    else
      var s := Process(cfg, row, moves[0].now, moves[0].a);
      s.calls + CallsOf(cfg, s.row, moves[1..])
  }

  predicate Ending(row: Link) {
    row.state == Removed || row.state == Archived || row.state == Failed
  }

  /** Under sync steps alone a removal ends where it began or in FAILED, and asks the index only for that deletion. */
  lemma {:induction false} RemovalIsFinal(cfg: Config, row: Link, moves: seq<Move>)
    requires Ending(row)
    ensures var last := AfterMoves(cfg, row, moves);
            && (last.state == row.state || last.state == Failed)
            && last.ragFileId == row.ragFileId
    ensures forall c | c in CallsOf(cfg, row, moves) :: row.ragFileId.Some? && c == DeleteVectors(row.ragFileId.value)
    decreases |moves|
  {
    if moves != [] {
      RemovalStep(cfg, row, moves[0].now, moves[0].a);
      RemovalIsFinal(cfg, Process(cfg, row, moves[0].now, moves[0].a).row, moves[1..]);
    }
  }

  lemma RemovalStep(cfg: Config, row: Link, now: Time, a: Answers)
    requires Ending(row)
    ensures var s := Process(cfg, row, now, a);
            && (s.row.state == row.state || s.row.state == Failed)
            && s.row.ragFileId == row.ragFileId
            && forall c | c in s.calls :: row.ragFileId.Some? && c == DeleteVectors(row.ragFileId.value)
  {
  }

  /**
   * A due removal is settled by a step exactly when the row has no id or the
   * index confirmed the deletion; once settled it is not due at any instant
   * before the year-9999 stamp.
   */
  lemma ConfirmedRemovalSettles(cfg: Config, row: Link, now: Time, a: Answers, later: Time)
    requires InStep(row, now) && Due(row, now) && (row.state == Removed || row.state == Archived)
    ensures var after := Process(cfg, row, now, a).row;
            && (after.nextAttemptAt == Some(CONFIRMED_REMOVAL_AT) <==>
                row.ragFileId.None? || ConfirmsGone(a.deleteVectors))
            && (after.nextAttemptAt == Some(CONFIRMED_REMOVAL_AT) && later < CONFIRMED_REMOVAL_AT ==>
                  !Due(after, later))
  {
    BackoffBounds(row.attempts + 1);
  }

  // ----- What revives a removed or archived row -----

  /**
   * A row waiting for its deletion leaves that state through an overwrite, or
   * through a rename while it has an id, and through nothing else that happens
   * to it; it may only fail.
   */
  lemma RevivedOnlyBy(cfg: Config, row: Link, ev: RowEvent, now: Time)
    requires (row.state == Removed || row.state == Archived) && Possible(row, ev, now)
    ensures var after := AfterEvent(cfg, row, ev, now);
            !(after.state == Removed || after.state == Archived || after.state == Failed) <==>
              ev.ContentChanged? || (ev.Rekeyed? && row.ragFileId.Some?)
  {
    hide Backoff, Process;
    if ev.Synced? || ev.Notified? {
      RetryState(cfg, row, now, ev.a);
    }
  }

  lemma RetryState(cfg: Config, row: Link, now: Time, a: Answers)
    requires row.state == Removed || row.state == Archived
    ensures var after := Process(cfg, row, now, a).row; after.state == row.state || after.state == Failed
  {
    hide Backoff;
  }

  /**
   * A directory rename re-keys the rows of all records below the new path, those
   * of files archived there before among them. Such a row, if it has an id, is
   * claimed again, finds no object and fails: the entry is never asked to be
   * deleted.
   */
  lemma RekeyedArchiveFails(cfg: Config, row: Link, key: string, now: Time, a: Answers)
    requires row.state == Archived && row.ragFileId.Some? && row.section != Private
    requires a.rekeyObject.Absent? && (row.contentSha256.Some? || !IsPreviewKey(key))
    ensures var marked := RekeyMark(row, key, now);
            var s := Process(cfg, marked, now, a);
            && Due(marked, now) && s.row.state == Failed && s.row.lastErrorCode == Some(ObjectNotFound)
            && s.row.ragFileId == row.ragFileId && s.calls == []
            && forall later :: !Due(s.row, later)
  {
    hide IsPreviewKey, Backoff;
  }
}
