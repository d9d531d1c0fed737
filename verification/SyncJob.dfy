/**
 * The index sync job, write by write. `a` holds what the outside world answers
 * during one `_process` call; `calls` records the remote calls in order.
 * Each method is tied to the table of SyncSpec through `Resume`: what the
 * exception handlers of `_process` would make of the state it leaves behind.
 */
module SyncJob {
  import opened Common
  import opened IndexLinks
  import opened LinkRepository
  import opened SyncSpec

  /** How a method ends: an outcome, or one of the exceptions `_process` tells apart. */
  datatype Flow =
    | Done(outcome: Outcome)
    | RaisedUnavailable(code: Option<ErrorCode>)
    | RaisedHttp(error: HttpError)
    | RaisedOther

  /** Found(digest, size), or the flow that ends the call. */
  datatype Located = Found(digest: Hash, size: nat) | Ended(flow: Flow)

  /** None of the original: the vectors are gone. */
  datatype Deletion = Gone | Stopped(flow: Flow)

  function Resume(cfg: Config, row: Link, now: Time, flow: Flow, calls: seq<Call>): Step {
    match flow
    case Done(outcome) => Step(row, outcome, calls)
    case RaisedUnavailable(code) => Retry(cfg, row, now, OutageCode(code), calls)
    case RaisedHttp(e) => Fail(row, now, HttpErrorCode(e), calls)
    case RaisedOther => Swallowed(row, calls)
  }

  /** A snapshot is recent enough for the retry handler: same attempts, same side of SUBMITTED. */
  predicate RetryAgrees(snapshot: Link, row: Link) {
    && snapshot.id == row.id
    && snapshot.attempts == row.attempts
    && (snapshot.state == Submitted <==> row.state == Submitted)
  }

  datatype SyncResult = SyncResult(claimed: nat, transitioned: nat, retried: nat, failed: nat, skipped: nat)

  class IndexSyncJob {
    const links: Repository
    const cfg: Config
    const batchSize: int
    var calls: seq<Call>

    constructor (links: Repository, cfg: Config, batchSize: int)
      ensures this.links == links && this.cfg == cfg && this.batchSize == batchSize && calls == []
    {
      this.links, this.cfg, this.batchSize, this.calls := links, cfg, batchSize, [];
    }

    /** The snapshot is the stored row. */
    ghost predicate Current(link: Link)
      reads links
    {
      links.Valid() && link.id in links.rows && links.rows[link.id] == link
    }

    /** Since the call began only row `id` may have changed, and it is still there. */
    twostate predicate OnlyRow(id: LinkId)
      reads links
    {
      links.Valid() && id in links.rows && links.rows == old(links.rows)[id := links.rows[id]]
    }

    // ----- Writes -----

    /** The patched row, or None when it is no longer there. */
    method Write(link: Link, now: Time, p: Patch) returns (updated: Option<Link>)
      requires links.Valid()
      modifies links
      ensures updated.None? <==> link.id !in old(links.rows)
      ensures updated.None? ==> links.Valid() && links.rows == old(links.rows)
      ensures updated.Some? ==>
                OnlyRow(link.id) && links.rows[link.id] == updated.value == Patched(old(links.rows)[link.id], p, now)
    {
      var t := links.ApplyTransition(link.id, p, now);
      return if t.Updated? then Some(t.link) else None;
    }

    method Succeed(link: Link, now: Time, state: LinkState, rag: RagId, digest: Update<Option<Hash>>)
      returns (flow: Flow)
      requires Current(link)
      requires digest.Set? ==> digest.value.Some?
      modifies links
      ensures OnlyRow(link.id) && flow == Done(Transitioned)
      ensures links.rows[link.id] ==
              if digest.Set? then SucceededRow(link, now, state, rag, digest.value.value)
              else Stamp(link, link.(state := state, attempts := 0, nextAttemptAt := None,
                                     ragFileId := Some(rag), lastErrorCode := None), now)
    {
      var _ := Write(link, now, NO_CHANGE.(state := Set(state), attempts := Set(0), nextAttemptAt := Set(None),
                                           ragFileId := Set(Some(rag)), lastErrorCode := Set(None),
                                           contentSha256 := digest));
      return Done(Transitioned);
    }

    method Settle(link: Link, now: Time, terminal: LinkState) returns (flow: Flow)
      requires Current(link)
      modifies links
      ensures OnlyRow(link.id) && flow == Done(Transitioned)
      ensures links.rows[link.id] == SettledRow(link, now, terminal)
    {
      var _ := Write(link, now, NO_CHANGE.(state := Set(terminal), attempts := Set(0),
                                           nextAttemptAt := Set(Some(CONFIRMED_REMOVAL_AT)),
                                           lastErrorCode := Set(None)));
      return Done(Transitioned);
    }

    method SkipLink(link: Link, now: Time, code: ErrorCode) returns (flow: Flow)
      requires Current(link)
      modifies links
      ensures OnlyRow(link.id) && flow == Done(SkippedOutcome)
      ensures links.rows[link.id] == SkippedRow(link, now, code)
    {
      var _ := Write(link, now, NO_CHANGE.(state := Set(Skipped), nextAttemptAt := Set(None),
                                           lastErrorCode := Set(Some(code))));
      return Done(SkippedOutcome);
    }

    method FailLink(link: Link, now: Time, code: ErrorCode) returns (flow: Flow)
      requires links.Valid() && link.id in links.rows
      modifies links
      ensures OnlyRow(link.id) && flow == Done(FailedOutcome)
      ensures links.rows[link.id] == FailedRow(old(links.rows)[link.id], now, code)
    {
      var _ := Write(link, now, NO_CHANGE.(state := Set(Failed), nextAttemptAt := Set(None),
                                           lastErrorCode := Set(Some(code))));
      return Done(FailedOutcome);
    }

    /** `link` may be older than the row: the outage handler holds the claimed snapshot. */
    method ScheduleRetry(link: Link, now: Time, code: ErrorCode) returns (flow: Flow)
      requires links.Valid() && link.id in links.rows && RetryAgrees(link, links.rows[link.id])
      modifies links
      ensures OnlyRow(link.id)
      ensures flow.Done?
      ensures Step(links.rows[link.id], flow.outcome, calls) == Retry(cfg, old(links.rows)[link.id], now, code, calls)
    {
      var attempts := link.attempts + 1;
      if attempts >= cfg.maxAttempts {
        var _ := Write(link, now, NO_CHANGE.(state := Set(Failed), attempts := Set(attempts),
                                             nextAttemptAt := Set(None), lastErrorCode := Set(Some(code))));
        return Done(FailedOutcome);
      }
      var nextAt := now + Backoff(attempts);
      var errorCode := if link.state == Submitted then Unset else Set(Some(code));
      var _ := Write(link, now, NO_CHANGE.(attempts := Set(attempts), nextAttemptAt := Set(Some(nextAt)),
                                           lastErrorCode := errorCode));
      return Done(Retried);
    }

    // ----- The object -----

    method MissObject(link: Link, now: Time) returns (flow: Flow)
      requires Current(link) && link.contentSha256.None?
      modifies links
      ensures OnlyRow(link.id)
      ensures Resume(cfg, links.rows[link.id], now, flow, calls) == Miss(cfg, link, now, calls)
      ensures flow.Done?
    {
      if !IsPreviewKey(link.s3Key) {
        flow := FailLink(link, now, ObjectNotFound);
        return;
      }
      var attempts := link.attempts + 1;
      if attempts >= cfg.maxAttempts {
        var _ := Write(link, now, NO_CHANGE.(state := Set(Skipped), attempts := Set(attempts),
                                             nextAttemptAt := Set(None), lastErrorCode := Set(Some(PreviewMissing))));
        return Done(SkippedOutcome);
      }
      var nextAt := now + Backoff(attempts);
      var _ := Write(link, now, NO_CHANGE.(attempts := Set(attempts), nextAttemptAt := Set(Some(nextAt)),
                                           lastErrorCode := Set(Some(PreviewMissing))));
      return Done(Retried);
    }

    /** The digest and size to send; a row without a hash reads the whole object. */
    method Locate(link: Link, now: Time, body: ObjectAnswer) returns (located: Located)
      requires Current(link)
      modifies links
      ensures OnlyRow(link.id)
      ensures located.Found? <==> body.Present?
      ensures located.Found? ==>
                links.rows[link.id] == link && located.digest == SentDigest(link, body.digest)
                  && located.size == body.size
      ensures located.Ended? ==> Resume(cfg, links.rows[link.id], now, located.flow, calls) ==
                                 if body.Broken? then Swallowed(link, calls) else Miss(cfg, link, now, calls)
      ensures located.Ended? ==> located.flow.Done? || located.flow.RaisedOther?
    {
      match body
      case Broken => return Ended(RaisedOther);
      case Present(found, size) => return Found(SentDigest(link, found), size);
      case Absent =>
        var flow;
        if link.contentSha256.None? {
          flow := MissObject(link, now);
        } else {
          flow := FailLink(link, now, ObjectNotFound);
        }
        return Ended(flow);
    }

    // ----- Registration -----

    method AdoptDuplicate(link: Link, now: Time, e: HttpError, digest: Hash) returns (flow: Flow)
      requires Current(link)
      modifies links
      ensures OnlyRow(link.id) && flow.Done?
      ensures e.detailFileId.None? || (link.ragFileId.Some? && link.ragFileId != e.detailFileId) ==>
                links.rows[link.id] == FailedRow(link, now, DuplicateConflict) && flow == Done(FailedOutcome)
      ensures e.detailFileId.Some? && (link.ragFileId.None? || link.ragFileId == e.detailFileId) ==>
                links.rows[link.id] == SucceededRow(link, now, Submitted, e.detailFileId.value, digest)
                && flow == Done(Transitioned)
    {
      if e.detailFileId.None? {
        flow := FailLink(link, now, DuplicateConflict);
        return;
      }
      if link.ragFileId.Some? && link.ragFileId != e.detailFileId {
        flow := FailLink(link, now, DuplicateConflict);
        return;
      }
      flow := Succeed(link, now, Submitted, e.detailFileId.value, HashUpdate(link, digest));
    }

    function HashUpdate(link: Link, digest: Hash): Update<Option<Hash>> {
      if link.contentSha256 == Some(digest) then Unset else Set(Some(digest))
    }

    method RegisterLink(link: Link, now: Time, a: Answers) returns (flow: Flow)
      requires Current(link)
      modifies links, this`calls
      ensures OnlyRow(link.id)
      ensures Resume(cfg, links.rows[link.id], now, flow, calls) == RegisterStep(cfg, link, now, a, old(calls))
      ensures flow.RaisedUnavailable? ==> links.rows[link.id] == link
    {
      hide Backoff, Stamp;
      if !IsDocument(link) && !IsImage(link) {
        flow := SkipLink(link, now, UnsupportedType);
        return;
      }
      var located := Locate(link, now, a.registerObject);
      if located.Ended? { return located.flow; }
      calls := calls + [Register(!IsDocument(link), link.userId, located.digest)];
      match a.register
      case Crash => return RaisedOther;
      case Unavailable(code) => return RaisedUnavailable(code);
      case Http(e) =>
        if e.status == 409 && e.code == Some(DuplicateFile) {
          flow := AdoptDuplicate(link, now, e, located.digest);
        } else {
          flow := FailLink(link, now, HttpErrorCode(e));
        }
      case Reply(card) =>
        flow := Succeed(link, now, Submitted, card.fileId, HashUpdate(link, located.digest));
    }

    // ----- Deletion, reindexing, re-keying -----

    /** What a deletion that did not go through makes of the row. */
    function DeletionFailure(link: Link, now: Time, a: Answers): Step
      reads this`calls
    {
      match a.deleteVectors
      case Unavailable(code) => Retry(cfg, link, now, OutageCode(code), calls)
      case Http(e) =>
        if link.state == Removed || link.state == Archived then Retry(cfg, link, now, HttpErrorCode(e), calls)
        else Fail(link, now, HttpErrorCode(e), calls)
      case Reply(_) => Swallowed(link, calls)
      case Crash => Swallowed(link, calls)
    }

    method DeleteVectorsOf(link: Link, now: Time, a: Answers) returns (d: Deletion)
      requires Current(link) && link.ragFileId.Some?
      modifies links, this`calls
      ensures OnlyRow(link.id) && calls == old(calls) + [DeleteVectors(link.ragFileId.value)]
      ensures d.Gone? <==> ConfirmsGone(a.deleteVectors)
      ensures d.Gone? ==> links.rows[link.id] == link
      ensures d.Stopped? ==>
                Resume(cfg, links.rows[link.id], now, d.flow, calls) == DeletionFailure(link, now, a)
      ensures d.Stopped? && d.flow.RaisedUnavailable? ==> links.rows[link.id] == link
    {
      calls := calls + [DeleteVectors(link.ragFileId.value)];
      match a.deleteVectors
      case Crash => return Stopped(RaisedOther);
      case Unavailable(code) => return Stopped(RaisedUnavailable(code));
      case Reply(_) => return Gone;
      case Http(e) =>
        if VectorsAlreadyGone(e) { return Gone; }
        var flow;
        if link.state == Removed || link.state == Archived {
          flow := ScheduleRetry(link, now, HttpErrorCode(e));
        } else {
          flow := FailLink(link, now, HttpErrorCode(e));
        }
        return Stopped(flow);
    }

    method Reindex(link: Link, now: Time, a: Answers) returns (flow: Flow)
      requires Current(link) && link.state == ReindexPending
      modifies links, this`calls
      ensures OnlyRow(link.id)
      ensures Resume(cfg, links.rows[link.id], now, flow, calls) == ReindexStep(cfg, link, now, a, old(calls))
      ensures flow.RaisedUnavailable? ==> RetryAgrees(link, links.rows[link.id])
    {
      var current := link;
      if link.ragFileId.Some? {
        var d := DeleteVectorsOf(link, now, a);
        if d.Stopped? { return d.flow; }
        var cleared := Write(link, now, NO_CHANGE.(ragFileId := Set(None)));
        current := cleared.value;
      }
      flow := RegisterLink(current, now, a);
    }

    method OnRekeyHttp(link: Link, now: Time, e: HttpError, a: Answers) returns (flow: Flow)
      requires Current(link) && link.state == Pending
      modifies links, this`calls
      ensures OnlyRow(link.id)
      ensures Resume(cfg, links.rows[link.id], now, flow, calls) ==
              if e.status == 409 && e.code == Some(ContentChangedError)
              then ReindexStep(cfg, ContentChangedRow(link, now), now, a, old(calls))
              else Fail(link, now, if e.status == 404 && e.code.None? then ObjectNotFound else HttpErrorCode(e),
                        old(calls))
      ensures flow.RaisedUnavailable? ==> RetryAgrees(link, links.rows[link.id])
    {
      if e.status == 409 && e.code == Some(ContentChangedError) {
        var updated := Write(link, now, NO_CHANGE.(state := Set(ReindexPending), nextAttemptAt := Set(None),
                                                   lastErrorCode := Set(Some(ContentChangedError))));
        flow := Reindex(updated.value, now, a);
        return;
      }
      if e.status == 404 {
        flow := FailLink(link, now, e.code.GetOr(ObjectNotFound));
        return;
      }
      flow := FailLink(link, now, HttpErrorCode(e));
    }

    method RekeyLink(link: Link, now: Time, a: Answers) returns (flow: Flow)
      requires Current(link) && link.state == Pending && link.ragFileId.Some? && calls == []
      modifies links, this`calls
      ensures OnlyRow(link.id)
      ensures Resume(cfg, links.rows[link.id], now, flow, calls) == RekeyStep(cfg, link, now, a)
      ensures flow.RaisedUnavailable? ==> RetryAgrees(link, links.rows[link.id])
    {
      var located := Locate(link, now, a.rekeyObject);
      if located.Ended? { return located.flow; }
      calls := [Rekey(link.ragFileId.value)];
      match a.rekey
      case Crash => return RaisedOther;
      case Unavailable(code) => return RaisedUnavailable(code);
      case Http(e) => flow := OnRekeyHttp(link, now, e, a);
      case Reply(card) => flow := Succeed(link, now, Indexed, card.fileId, HashUpdate(link, located.digest));
    }

    // ----- Polling and removal -----

    method OnPolledCard(link: Link, now: Time, card: Card) returns (flow: Flow)
      requires Current(link) && link.ragFileId.Some?
      modifies links
      ensures OnlyRow(link.id) && flow.Done?
      ensures forall a: Answers | a.getFile == Reply(card) && calls == [GetFile(link.ragFileId.value)] ::
                Step(links.rows[link.id], flow.outcome, calls) == PollStep(cfg, link, now, a)
    {
      match card.status
      case Ready => flow := Succeed(link, now, Indexed, card.fileId, Unset);
      case Errored => flow := FailLink(link, now, card.error.GetOr(ErrorStatus));
      case Deleting => flow := Settle(link, now, Removed);
      case Deleted => flow := Settle(link, now, Removed);
      case StillWorking =>
        if now - link.updatedAt >= cfg.maxWaitSeconds * SECOND {
          flow := FailLink(link, now, Timeout);
          return;
        }
        var nextAt := now + Backoff(link.attempts);
        var _ := Write(link, now, NO_CHANGE.(nextAttemptAt := Set(Some(nextAt))));
        return Done(Retried);
    }

    method Poll(link: Link, now: Time, a: Answers) returns (flow: Flow)
      requires Current(link) && link.state == Submitted && calls == []
      modifies links, this`calls
      ensures OnlyRow(link.id)
      ensures Resume(cfg, links.rows[link.id], now, flow, calls) == Process(cfg, link, now, a)
      ensures flow.RaisedUnavailable? ==> links.rows[link.id] == link
    {
      if link.ragFileId.None? {
        flow := RegisterLink(link, now, a);
        return;
      }
      calls := calls + [GetFile(link.ragFileId.value)];
      match a.getFile
      case Crash => return RaisedOther;
      case Unavailable(code) => return RaisedUnavailable(code);
      case Http(e) =>
        if e.status == 404 {
          flow := Settle(link, now, Removed);
        } else {
          flow := FailLink(link, now, HttpErrorCode(e));
        }
      case Reply(card) => flow := OnPolledCard(link, now, card);
    }

    method Remove(link: Link, now: Time, a: Answers, terminal: LinkState) returns (flow: Flow)
      requires Current(link) && link.state == terminal && (terminal == Removed || terminal == Archived)
      requires calls == []
      modifies links, this`calls
      ensures OnlyRow(link.id)
      ensures Resume(cfg, links.rows[link.id], now, flow, calls) == RemoveStep(cfg, link, now, a)
      ensures flow.RaisedUnavailable? ==> links.rows[link.id] == link
    {
      if link.ragFileId.None? {
        flow := Settle(link, now, terminal);
        return;
      }
      var d := DeleteVectorsOf(link, now, a);
      if d.Stopped? { return d.flow; }
      flow := Settle(link, now, terminal);
    }

    // ----- One row, one tick -----

    method Dispatch(link: Link, now: Time, a: Answers) returns (flow: Flow)
      requires Current(link) && calls == []
      modifies links, this`calls
      ensures OnlyRow(link.id)
      ensures Resume(cfg, links.rows[link.id], now, flow, calls) == Process(cfg, link, now, a)
      ensures flow.RaisedUnavailable? ==> RetryAgrees(link, links.rows[link.id])
    {
      if link.state == Skipped { return Done(SkippedOutcome); }
      if link.state == Submitted { flow := Poll(link, now, a); return; }
      if link.state == Removed { flow := Remove(link, now, a, Removed); return; }
      if link.state == Archived { flow := Remove(link, now, a, Archived); return; }
      if link.state == ReindexPending { flow := Reindex(link, now, a); return; }
      if link.state == Pending && link.ragFileId.Some? { flow := RekeyLink(link, now, a); return; }
      if link.state == Pending { flow := RegisterLink(link, now, a); return; }
      return Done(SkippedOutcome);
    }

    /** One row: exactly the table's step, and no other row is touched. */
    method ProcessLink(link: Link, now: Time, a: Answers) returns (outcome: Outcome)
      requires Current(link)
      modifies links, this`calls
      ensures OnlyRow(link.id)
      ensures Step(links.rows[link.id], outcome, calls) == Process(cfg, link, now, a)
    {
      calls := [];
      var flow := Dispatch(link, now, a);
      match flow {
        case Done(_) =>
        case RaisedUnavailable(code) => flow := ScheduleRetry(link, now, OutageCode(code));
        case RaisedHttp(e) => flow := FailLink(link, now, HttpErrorCode(e));
        case RaisedOther => flow := Done(FailedOutcome);
      }
      return flow.outcome;
    }

    /**
     * One tick: claim the oldest due rows and take the table's step on each.
     * Rows that were not claimed keep every column, and the four counts are the
     * outcomes of the claimed rows. A batch or attempt limit below one is refused.
     */
    method Run(now: Time, world: LinkId -> Answers) returns (result: Option<SyncResult>, ghost claimed: seq<LinkId>)
      requires links.Valid()
      modifies links, this`calls
      ensures links.Valid()
      ensures result.None? <==> batchSize < 1 || cfg.maxAttempts < 1
      ensures result.None? ==> claimed == []
      ensures result.Some? ==> FirstOf(old(links.rows), DueIds(old(links.rows), now), batchSize, claimed)
      ensures Ticked(cfg, old(links.rows), links.rows, claimed, now, world)
      ensures result.Some? ==>
                result.value.claimed == |claimed| && Counts(cfg, old(links.rows), claimed, now, world, result.value)
    {
      claimed := [];
      if batchSize < 1 || cfg.maxAttempts < 1 { return None, claimed; }
      var ids := links.ClaimDue(batchSize, now);
      claimed := ids.value;
      var counts := SyncResult(|ids.value|, 0, 0, 0, 0);
      for i := 0 to |ids.value|
        invariant links.Valid()
        invariant Ticked(cfg, old(links.rows), links.rows, claimed[..i], now, world)
        invariant counts.claimed == |claimed|
        invariant Counts(cfg, old(links.rows), claimed[..i], now, world, counts.(claimed := i))
      {
        var id := ids.value[i];
        OneMore(cfg, old(links.rows), links.rows, claimed, i, now, world, counts);
        var outcome := ProcessLink(links.rows[id], now, world(id));
        counts := Count(counts, outcome);
      }
      assert claimed[..|claimed|] == claimed;
      return Some(counts), claimed;
    }
  }

  function Count(counts: SyncResult, outcome: Outcome): SyncResult {
    match outcome
    case Transitioned => counts.(transitioned := counts.transitioned + 1)
    case Retried => counts.(retried := counts.retried + 1)
    case FailedOutcome => counts.(failed := counts.failed + 1)
    case SkippedOutcome => counts.(skipped := counts.skipped + 1)
  }

  /** Every claimed row took the table's step; every other row kept every column. */
  ghost predicate Ticked(cfg: Config, before: map<LinkId, Link>, after: map<LinkId, Link>, claimed: seq<LinkId>,
                         now: Time, world: LinkId -> Answers)
  {
    && after.Keys == before.Keys
    && forall id | id in before ::
         after[id] == if id in claimed then Process(cfg, before[id], now, world(id)).row else before[id]
  }

  /** The four counts are the numbers of claimed rows with each outcome, and sum to the claims. */
  ghost predicate Counts(cfg: Config, before: map<LinkId, Link>, claimed: seq<LinkId>, now: Time,
                         world: LinkId -> Answers, r: SyncResult)
    requires forall i | 0 <= i < |claimed| :: claimed[i] in before
  {
    && r.claimed == |claimed| == r.transitioned + r.retried + r.failed + r.skipped
    && r.transitioned == Tally(cfg, before, claimed, now, world, Transitioned)
    && r.retried == Tally(cfg, before, claimed, now, world, Retried)
    && r.failed == Tally(cfg, before, claimed, now, world, FailedOutcome)
    && r.skipped == Tally(cfg, before, claimed, now, world, SkippedOutcome)
  }

  /** How many of the claimed rows end with outcome `o`. */
  ghost function Tally(cfg: Config, rows: map<LinkId, Link>, claimed: seq<LinkId>, now: Time,
                       world: LinkId -> Answers, o: Outcome): nat
    requires forall i | 0 <= i < |claimed| :: claimed[i] in rows
  {
    if claimed == [] then 0
    else
      var last := claimed[|claimed| - 1];
      Tally(cfg, rows, claimed[..|claimed| - 1], now, world, o)
      + if Process(cfg, rows[last], now, world(last)).outcome == o then 1 else 0
  }

  lemma OneMore(cfg: Config, before: map<LinkId, Link>, mid: map<LinkId, Link>, claimed: seq<LinkId>, i: nat,
                now: Time, world: LinkId -> Answers, r: SyncResult)
    requires i < |claimed| && Ordered(before, claimed)
    requires Ticked(cfg, before, mid, claimed[..i], now, world)
    requires Counts(cfg, before, claimed[..i], now, world, r.(claimed := i))
    ensures var id := claimed[i];
            var step := Process(cfg, before[id], now, world(id));
            && mid[id] == before[id]
            && Ticked(cfg, before, mid[id := step.row], claimed[..i + 1], now, world)
            && Counts(cfg, before, claimed[..i + 1], now, world, Count(r, step.outcome).(claimed := i + 1))
  {
    hide Process;
    OrderedIsDistinct(before, claimed);
    assert claimed[..i + 1][..i] == claimed[..i];
    assert claimed[..i + 1] == claimed[..i] + [claimed[i]];
  }
}
