/** What the job asks of the index after each mark of the request path. */
module AfterMarks {
  import opened Common
  import opened IndexLinks
  import opened RegistrationTarget
  import opened LinkRepository
  import opened SyncSpec
  import opened SyncTermination
  import opened RowInvariant
  import opened StepOutcome

  /** The clock of the wait moves exactly when one of the columns it watches does. */
  predicate Clocked(row: Link, marked: Link, now: Time) {
    marked.updatedAt ==
    if marked.state == row.state && marked.ragFileId == row.ragFileId && marked.lastErrorCode == row.lastErrorCode
       && marked.s3Key == row.s3Key && marked.contentSha256 == row.contentSha256
       && marked.contentType == row.contentType
    then row.updatedAt else now
  }

  // ----- Overwrites -----

  /** The k-th of the steps. */
  function StepAt(cfg: Config, row: Link, moves: seq<Move>, k: nat): Step
    requires k < |moves|
  {
    Process(cfg, AfterMoves(cfg, row, moves[..k]), moves[k].now, moves[k].a)
  }

  /** The k-th step asked for the deletion of `id`, and it was confirmed. */
  predicate DeletedAt(cfg: Config, row: Link, moves: seq<Move>, id: RagId, k: nat)
    requires k < |moves|
  {
    DeleteVectors(id) in StepAt(cfg, row, moves, k).calls && GoneFor(moves[k].a.deleteVectors)
  }

  /** A registration of the hash, or of the object read for it where there is none. */
  predicate Carries(c: Call, hash: Option<Hash>, o: ObjectAnswer) {
    && c.Register?
    && (hash.Some? ==> c.digest == hash.value)
    && (hash.None? ==> o.Present? && c.digest == o.digest)
  }

  predicate RegisteredAt(cfg: Config, row: Link, moves: seq<Move>, hash: Option<Hash>, k: nat)
    requires k < |moves|
  {
    exists c | c in StepAt(cfg, row, moves, k).calls :: Carries(c, hash, moves[k].a.registerObject)
  }

  /** Overwritten and not registered since. */
  predicate Superseded(row: Link, hash: Option<Hash>) {
    && row.contentSha256 == hash
    && row.state in {Pending, ReindexPending, Failed, Skipped}
    && (row.ragFileId.Some? ==> row.state != Pending)
  }

  lemma SupersededStep(cfg: Config, row: Link, hash: Option<Hash>, now: Time, a: Answers)
    requires Superseded(row, hash)
    ensures var s := Process(cfg, row, now, a);
            && (Superseded(s.row, hash)
                || (Accepted(row, a) && exists c | c in s.calls :: Carries(c, hash, a.registerObject)))
            && (row.ragFileId.Some? && (Accepted(row, a) || s.row.ragFileId != row.ragFileId) ==>
                  DeleteVectors(row.ragFileId.value) in s.calls && GoneFor(a.deleteVectors))
  {
    hide Process, PreviewPath, OutcomeFollows, AttemptsFollow, ScheduleFollows, ErrorFollows, ClockFollows;
    StepFollows(cfg, row, now, a);
    CallsExactly(cfg, row, now, a);
    if Accepted(row, a) {
      assert Carries(Registration(row, a), hash, a.registerObject);
    }
  }

  lemma NextStep(cfg: Config, row: Link, moves: seq<Move>, k: nat)
    requires k + 1 < |moves|
    ensures StepAt(cfg, row, moves, k + 1) ==
            StepAt(cfg, Process(cfg, row, moves[0].now, moves[0].a).row, moves[1..], k)
  {
    hide Process;
    assert moves[..k + 1][1..] == moves[1..][..k];
  }

  /**
   * Over any steps after an overwrite: the row is SUBMITTED or INDEXED only after
   * the new content was registered, and that after the old id was confirmed gone.
   */
  lemma {:induction false} RegisteredAfterOverwrite(cfg: Config, row: Link, hash: Option<Hash>, moves: seq<Move>)
    requires Superseded(row, hash) && AfterMoves(cfg, row, moves).state in {Submitted, Indexed}
    ensures exists k | 0 <= k < |moves| ::
              && RegisteredAt(cfg, row, moves, hash, k)
              && (row.ragFileId.Some? ==> exists j | 0 <= j <= k :: DeletedAt(cfg, row, moves, row.ragFileId.value, j))
    decreases |moves|
  {
    hide Process, Superseded, Carries, Accepted, GoneFor;
    assert moves != [] by { NotYet(row, hash); }
    var now, a := moves[0].now, moves[0].a;
    var s := Process(cfg, row, now, a);
    SupersededStep(cfg, row, hash, now, a);
    assert moves[..0] == [] && StepAt(cfg, row, moves, 0) == s;
    if Superseded(s.row, hash) && !(Accepted(row, a) && exists c | c in s.calls :: Carries(c, hash, a.registerObject)) {
      RegisteredAfterOverwrite(cfg, s.row, hash, moves[1..]);
      var k :| 0 <= k < |moves| - 1
               && RegisteredAt(cfg, s.row, moves[1..], hash, k)
               && (s.row.ragFileId.Some? ==>
                     exists j | 0 <= j <= k :: DeletedAt(cfg, s.row, moves[1..], s.row.ragFileId.value, j));
      NextStep(cfg, row, moves, k);
      assert RegisteredAt(cfg, row, moves, hash, k + 1);
      if row.ragFileId.Some? {
        if s.row.ragFileId == row.ragFileId {
          var j :| 0 <= j <= k && DeletedAt(cfg, s.row, moves[1..], row.ragFileId.value, j);
          NextStep(cfg, row, moves, j);
          assert DeletedAt(cfg, row, moves, row.ragFileId.value, j + 1);
        } else {
          assert DeletedAt(cfg, row, moves, row.ragFileId.value, 0);
        }
      }
    } else {
      assert RegisteredAt(cfg, row, moves, hash, 0);
      assert row.ragFileId.Some? ==> DeletedAt(cfg, row, moves, row.ragFileId.value, 0);
    }
  }

  lemma NotYet(row: Link, hash: Option<Hash>)
    requires Superseded(row, hash)
    ensures row.state !in {Submitted, Indexed}
  {
  }

  /** A row that is not waiting to be re-keyed never is, by steps alone. */
  lemma {:induction false} NoRekeyByItself(cfg: Config, row: Link, moves: seq<Move>)
    requires row.state == Pending ==> row.ragFileId.None?
    ensures forall c | c in CallsOf(cfg, row, moves) :: !c.Rekey?
    decreases |moves|
  {
    if moves != [] {
      var now, a := moves[0].now, moves[0].a;
      NoRekeyInStep(cfg, row, now, a);
      NoRekeyByItself(cfg, Process(cfg, row, now, a).row, moves[1..]);
    }
  }

  lemma NoRekeyInStep(cfg: Config, row: Link, now: Time, a: Answers)
    requires row.state == Pending ==> row.ragFileId.None?
    ensures var s := Process(cfg, row, now, a);
            (s.row.state == Pending ==> s.row.ragFileId.None?) && forall c | c in s.calls :: !c.Rekey?
  {
    hide Process, PreviewPath, OutcomeFollows, HashFollows, AttemptsFollow, ScheduleFollows, ErrorFollows,
         ClockFollows;
    StepFollows(cfg, row, now, a);
    CallsExactly(cfg, row, now, a);
  }

  /**
   * After an overwrite the row is due at once. With an id the next step first
   * asks for its deletion and no step asks for a re-key; over any steps the row
   * is SUBMITTED or INDEXED only once that deletion was confirmed and then the
   * decision's hash, or the object's, was registered.
   */
  lemma OverwriteIsReindexed(cfg: Config, row: Link, d: RegistrationDecision, now: Time, moves: seq<Move>)
    ensures var marked := ContentChangedMark(row, d, now);
            && (row.section != Private ==> forall t :: Due(marked, t))
            && marked == row.(state := marked.state, updatedAt := marked.updatedAt, attempts := 0,
                              nextAttemptAt := None, lastErrorCode := None, s3Key := d.s3Key,
                              contentType := d.contentType, contentSha256 := d.contentSha256)
            && Clocked(row, marked, now)
            && (forall c | c in CallsOf(cfg, marked, moves) :: !c.Rekey?)
            && (moves != [] && row.ragFileId.Some? ==>
                  var calls := Process(cfg, marked, moves[0].now, moves[0].a).calls;
                  calls != [] && calls[0] == DeleteVectors(row.ragFileId.value))
            && (AfterMoves(cfg, marked, moves).state in {Submitted, Indexed} ==>
                  exists k | 0 <= k < |moves| ::
                    && RegisteredAt(cfg, marked, moves, d.contentSha256, k)
                    && (row.ragFileId.Some? ==>
                          exists j | 0 <= j <= k :: DeletedAt(cfg, marked, moves, row.ragFileId.value, j)))
  {
    hide Process, Registration, DeletedAt, RegisteredAt;
    var marked := ContentChangedMark(row, d, now);
    assert Superseded(marked, d.contentSha256);
    NoRekeyByItself(cfg, marked, moves);
    if AfterMoves(cfg, marked, moves).state in {Submitted, Indexed} {
      RegisteredAfterOverwrite(cfg, marked, d.contentSha256, moves);
    }
    if moves != [] {
      CallsExactly(cfg, marked, moves[0].now, moves[0].a);
    }
  }

  // ----- The other marks -----

  /**
   * A moved object: with an id the row is due at once and the next step re-keys
   * that id, or finds no object and calls nothing; without one nothing but the
   * key changes.
   */
  lemma MoveIsRekeyed(cfg: Config, row: Link, key: string, now: Time, later: Time, a: Answers)
    ensures var marked := RekeyMark(row, key, now);
            && marked.s3Key == key && Clocked(row, marked, now)
            && (row.ragFileId.None? ==> marked == row.(s3Key := key, updatedAt := marked.updatedAt))
            && (row.ragFileId.Some? ==>
                  var calls := Process(cfg, marked, later, a).calls;
                  && (row.section != Private && later >= now ==> Due(marked, later))
                  && marked == row.(state := Pending, s3Key := key, nextAttemptAt := Some(now),
                                    updatedAt := marked.updatedAt)
                  && (calls == [] <==> !a.rekeyObject.Present?)
                  && (calls != [] ==> calls[0] == Rekey(row.ragFileId.value))
                  && (|calls| > 1 ==> calls[1] == DeleteVectors(row.ragFileId.value)
                                      && a.rekey.Http? && a.rekey.error.code == Some(ContentChangedError)))
  {
    hide Process, Registration;
    CallsExactly(cfg, RekeyMark(row, key, now), later, a);
  }

  /**
   * A removed or archived file: its row is due at once, and every step asks for
   * the deletion of its id and nothing else; it stays in that state or fails.
   */
  lemma RemovalIsAsked(cfg: Config, row: Link, now: Time, later: Time, a: Answers)
    ensures forall marked | marked in {RemovedMark(row, now), ArchivedMark(row, now)} ::
              && (row.section != Private ==> Due(marked, later))
              && marked == row.(state := marked.state, nextAttemptAt := None, updatedAt := marked.updatedAt)
              && Clocked(row, marked, now)
              && Process(cfg, marked, later, a).calls ==
                 (if row.ragFileId.Some? then [DeleteVectors(row.ragFileId.value)] else [])
              && Process(cfg, marked, later, a).row.state in {marked.state, Failed}
    ensures RemovedMark(row, now).state == Removed && ArchivedMark(row, now).state == Archived
  {
    hide Process, PreviewPath, Registration;
    forall marked | marked in {RemovedMark(row, now), ArchivedMark(row, now)}
      ensures Process(cfg, marked, later, a).calls ==
              if row.ragFileId.Some? then [DeleteVectors(row.ragFileId.value)] else []
      ensures Process(cfg, marked, later, a).row.state in {marked.state, Failed}
    {
      CallsExactly(cfg, marked, later, a);
      StepFollows(cfg, marked, later, a);
    }
  }

  /**
   * A failed row put back: due at once with all its attempts. With an id the next
   * step asks what became of it, and only that; without one it registers or
   * calls nothing.
   */
  lemma RetryGoesOn(cfg: Config, row: Link, now: Time, later: Time, a: Answers)
    requires row.state == Failed
    ensures var marked := RetryMark(row, now);
            var calls := Process(cfg, marked, later, a).calls;
            && (row.section != Private ==> Due(marked, later))
            && marked == row.(state := marked.state, attempts := 0, nextAttemptAt := None, lastErrorCode := None,
                              updatedAt := now)
            && (row.ragFileId.Some? ==> calls == [GetFile(row.ragFileId.value)])
            && (row.ragFileId.None? ==> calls == [] || (|calls| == 1 && calls[0].Register?))
  {
    hide Process;
    CallsExactly(cfg, RetryMark(row, now), later, a);
  }
}
