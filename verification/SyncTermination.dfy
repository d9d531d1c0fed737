/**
 * Every row of the queue leaves it after a bounded number of steps: a ranking
 * over attempts left and wait left, the exact bound, and a run that attains it.
 */
module SyncTermination {
  import opened Common
  import opened IndexLinks
  import opened SyncSpec
  import opened StepShape

  // The shortest wait between two polls of a row that is still being indexed.
  const UNIT := BACKOFF_BASE_SECONDS * SECOND

  function AttemptsLeft(cfg: Config, row: Link): nat {
    Max(1, cfg.maxAttempts - row.attempts)
  }

  /** No step is taken at the row before this instant. */
  function NotBefore(row: Link): Time {
    Max(row.updatedAt, row.nextAttemptAt.GetOr(row.updatedAt))
  }

  /** How many more polls may still find the index working. */
  function PollsLeft(cfg: Config, row: Link): nat {
    CeilDiv(row.updatedAt + cfg.maxWaitSeconds * SECOND - NotBefore(row), UNIT)
  }

  /** The rank of a row just handed to the index. */
  function FreshRank(cfg: Config): nat {
    Max(1, cfg.maxAttempts) + CeilDiv(cfg.maxWaitSeconds * SECOND, UNIT)
  }

  function Rank(cfg: Config, row: Link): nat {
    if Left(row) then 0
    else if Early(row) then AttemptsLeft(cfg, row) + FreshRank(cfg)
    else if row.state == Submitted then AttemptsLeft(cfg, row) + PollsLeft(cfg, row)
    else AttemptsLeft(cfg, row)
  }

  /** A step may be taken: the row is due, the clock has not gone back, and nothing unforeseen happens. */
  predicate Enabled(row: Link, now: Time, a: Answers) {
    Due(row, now) && row.updatedAt <= now < CONFIRMED_REMOVAL_AT && Typed(a)
  }

  lemma CeilDivFalls(n: int)
    requires n > 0
    ensures CeilDiv(n, UNIT) >= 1
    ensures forall m | m <= n - UNIT :: CeilDiv(m, UNIT) < CeilDiv(n, UNIT)
  {
  }

  lemma CeilDivMonotone(m: int, n: int)
    requires m <= n
    ensures CeilDiv(m, UNIT) <= CeilDiv(n, UNIT)
  {
  }

  /** Every step taken when due lowers the rank, whatever the index answers. */
  lemma StepLowersRank(cfg: Config, row: Link, now: Time, a: Answers)
    requires Enabled(row, now, a)
    ensures Rank(cfg, Process(cfg, row, now, a).row) < Rank(cfg, row)
    ensures Process(cfg, row, now, a).row.updatedAt <= now
  {
    hide Process, Backoff;
    var after := Process(cfg, row, now, a).row;
    ProcessShape(cfg, row, now, a);
    BackoffBounds(row.attempts);
    BackoffBounds(after.attempts);
    assert !Left(row);
    var left := row.updatedAt + cfg.maxWaitSeconds * SECOND - NotBefore(row);
    var left' := after.updatedAt + cfg.maxWaitSeconds * SECOND - NotBefore(after);
    if Waiting(cfg, row, after, now) {
      if row.state == Submitted && !Early(row) {
        CeilDivMonotone(left', left);
      }
    } else if StillIndexing(cfg, row, after, now) {
      CeilDivFalls(left);
    }
  }

  // ----- Runs -----

  datatype Move = Move(now: Time, a: Answers)

  function AfterMoves(cfg: Config, row: Link, moves: seq<Move>): Link
    decreases |moves|
  {
    if moves == [] then row
    else AfterMoves(cfg, Process(cfg, row, moves[0].now, moves[0].a).row, moves[1..])
  }

  /** Each move is taken when the row is due, on a clock that never goes back. */
  ghost predicate EnabledRun(cfg: Config, row: Link, moves: seq<Move>)
    decreases |moves|
  {
    moves == [] ||
    (Enabled(row, moves[0].now, moves[0].a)
     && EnabledRun(cfg, Process(cfg, row, moves[0].now, moves[0].a).row, moves[1..]))
  }

  lemma RankFacts(cfg: Config, row: Link)
    ensures Rank(cfg, row) == 0 <==> Left(row)
    ensures Rank(cfg, row) <= 2 * Max(1, cfg.maxAttempts) + CeilDiv(cfg.maxWaitSeconds * SECOND, UNIT)
  {
    CeilDivMonotone(row.updatedAt + cfg.maxWaitSeconds * SECOND - NotBefore(row), cfg.maxWaitSeconds * SECOND);
  }

  /** No run is longer than the rank of its first row, and a run of that length ends outside the queue. */
  lemma {:induction false} RunsAreBounded(cfg: Config, row: Link, moves: seq<Move>)
    requires EnabledRun(cfg, row, moves)
    ensures |moves| + Rank(cfg, AfterMoves(cfg, row, moves)) <= Rank(cfg, row)
    ensures Rank(cfg, row) <= 2 * Max(1, cfg.maxAttempts) + CeilDiv(cfg.maxWaitSeconds * SECOND, UNIT)
    ensures |moves| == Rank(cfg, row) ==> Left(AfterMoves(cfg, row, moves))
    decreases |moves|
  {
    RankFacts(cfg, row);
    if moves != [] {
      var now, a := moves[0].now, moves[0].a;
      StepLowersRank(cfg, row, now, a);
      RunsAreBounded(cfg, Process(cfg, row, now, a).row, moves[1..]);
    }
    RankFacts(cfg, AfterMoves(cfg, row, moves));
  }

  /** A row is stuck only when it has left: until then some instant enables a step. */
  lemma NeverStuck(row: Link, a: Answers)
    requires row.section != Private && Typed(a)
    requires row.updatedAt < CONFIRMED_REMOVAL_AT
    requires row.nextAttemptAt.Some? ==> row.nextAttemptAt.value <= CONFIRMED_REMOVAL_AT
    requires row.nextAttemptAt == Some(CONFIRMED_REMOVAL_AT) ==> row.state == Removed || row.state == Archived
    ensures !Left(row) <==> exists now :: Enabled(row, now, a)
  {
    if !Left(row) {
      assert Enabled(row, NotBefore(row), a);
    }
  }

  // ----- The bound is attained -----

  const A_DOCUMENT := Present("digest", 1)

  predicate OnSlowPath(cfg: Config, row: Link) {
    && row.section != Private && IsDocument(row)
    && NotBefore(row) + Rank(cfg, row) * BACKOFF_CAP_SECONDS * SECOND < CONFIRMED_REMOVAL_AT
    && ((row.state == Pending && row.ragFileId.None?)
        || (row.state == Submitted && row.ragFileId.Some? && (row.attempts == 0 || PollsLeft(cfg, row) == 0)))
  }

  /** The answer that keeps the row in the queue longest. */
  function SlowestAnswer(cfg: Config, row: Link): Answers {
    var card := Card(0, StillWorking, None);
    var down := Answers(A_DOCUMENT, A_DOCUMENT, Unavailable(None), Unavailable(None), Unavailable(None),
                        Unavailable(None));
    if row.state == Pending && AttemptsLeft(cfg, row) == 1 then down.(register := Reply(card))
    else if row.state == Submitted && PollsLeft(cfg, row) > 0 then down.(getFile := Reply(card))
    else down
  }

  lemma SlowestStep(cfg: Config, row: Link)
    requires OnSlowPath(cfg, row)
    ensures var a := SlowestAnswer(cfg, row);
            var after := Process(cfg, row, NotBefore(row), a).row;
            && Enabled(row, NotBefore(row), a)
            && Rank(cfg, after) == Rank(cfg, row) - 1
            && (Rank(cfg, after) > 0 ==> OnSlowPath(cfg, after))
  {
    hide Process;
    var now := NotBefore(row);
    var a := SlowestAnswer(cfg, row);
    if row.state == Pending {
      SlowestRegistration(cfg, row, now, a);
    } else if PollsLeft(cfg, row) > 0 {
      SlowestPoll(cfg, row, now, a);
    } else {
      SlowestOutage(cfg, row, now, a);
    }
  }

  lemma SlowestPoll(cfg: Config, row: Link, now: Time, a: Answers)
    requires OnSlowPath(cfg, row) && row.state == Submitted && PollsLeft(cfg, row) > 0
    requires now == NotBefore(row) && a == SlowestAnswer(cfg, row)
    ensures var after := Process(cfg, row, now, a).row;
            && Rank(cfg, after) == Rank(cfg, row) - 1
            && (Rank(cfg, after) > 0 ==> OnSlowPath(cfg, after))
  {
    hide RegisterStep, RekeyStep, ReindexStep, RemoveStep;
    assert Backoff(0) == UNIT;
    assert now - row.updatedAt < cfg.maxWaitSeconds * SECOND;
    assert Process(cfg, row, now, a).row == row.(nextAttemptAt := Some(now + UNIT));
  }

  lemma SlowestOutage(cfg: Config, row: Link, now: Time, a: Answers)
    requires OnSlowPath(cfg, row) && row.state == Submitted && PollsLeft(cfg, row) == 0
    requires now == NotBefore(row) && a == SlowestAnswer(cfg, row)
    ensures var after := Process(cfg, row, now, a).row;
            && Rank(cfg, after) == Rank(cfg, row) - 1
            && (Rank(cfg, after) > 0 ==> OnSlowPath(cfg, after))
  {
    hide Backoff, RegisterStep, RekeyStep, ReindexStep, RemoveStep;
    BackoffBounds(row.attempts + 1);
  }

  lemma SlowestRegistration(cfg: Config, row: Link, now: Time, a: Answers)
    requires OnSlowPath(cfg, row) && row.state == Pending && now == NotBefore(row) && a == SlowestAnswer(cfg, row)
    ensures var after := Process(cfg, row, now, a).row;
            && Rank(cfg, after) == Rank(cfg, row) - 1
            && (Rank(cfg, after) > 0 ==> OnSlowPath(cfg, after))
  {
    hide Backoff, IsPreviewKey, RekeyStep, ReindexStep, RemoveStep, PollStep;
    BackoffBounds(row.attempts + 1);
  }

  /** A run as long as the rank exists: the bound of RunsAreBounded cannot be lowered. */
  lemma {:induction false} SlowestRun(cfg: Config, row: Link) returns (moves: seq<Move>)
    requires OnSlowPath(cfg, row)
    ensures EnabledRun(cfg, row, moves) && |moves| == Rank(cfg, row)
    decreases Rank(cfg, row)
  {
    SlowestStep(cfg, row);
    var first := Move(NotBefore(row), SlowestAnswer(cfg, row));
    var after := Process(cfg, row, first.now, first.a).row;
    var rest := [];
    if Rank(cfg, after) > 0 {
      rest := SlowestRun(cfg, after);
    }
    moves := [first] + rest;
    assert moves[1..] == rest;
  }

  // ----- The wait of a SUBMITTED row -----

  /** The row is SUBMITTED with its id before and after every move. */
  ghost predicate StaysSubmitted(cfg: Config, row: Link, moves: seq<Move>)
    decreases |moves|
  {
    && row.state == Submitted && row.ragFileId.Some?
    && (moves != [] ==> StaysSubmitted(cfg, Process(cfg, row, moves[0].now, moves[0].a).row, moves[1..]))
  }

  function Outages(moves: seq<Move>): nat {
    if moves == [] then 0 else (if moves[0].a.getFile.Unavailable? then 1 else 0) + Outages(moves[1..])
  }

  /**
   * Through any mix of polls and outages the wait is measured from one instant,
   * every outage costs one attempt, and the next one is fatal exactly when it
   * is the maxAttempts-th.
   */
  lemma {:induction false} SubmittedWait(cfg: Config, row: Link, moves: seq<Move>, now: Time, a: Answers)
    requires StaysSubmitted(cfg, row, moves)
    requires a.getFile.Unavailable?
    ensures var last := AfterMoves(cfg, row, moves);
            && last.updatedAt == row.updatedAt && last.ragFileId == row.ragFileId
            && last.lastErrorCode == row.lastErrorCode
            && last.attempts == row.attempts + Outages(moves)
            && (Process(cfg, last, now, a).row.state == Failed <==>
                row.attempts + Outages(moves) + 1 >= cfg.maxAttempts)
    decreases |moves|
  {
    if moves != [] {
      var after := Process(cfg, row, moves[0].now, moves[0].a).row;
      StaysSubmittedStep(cfg, row, moves[0].now, moves[0].a);
      SubmittedWait(cfg, after, moves[1..], now, a);
    }
  }

  lemma StaysSubmittedStep(cfg: Config, row: Link, now: Time, a: Answers)
    requires row.state == Submitted && row.ragFileId.Some?
    requires Process(cfg, row, now, a).row.state == Submitted
    ensures var after := Process(cfg, row, now, a).row;
            && after == row.(attempts := after.attempts, nextAttemptAt := after.nextAttemptAt)
            && after.attempts == row.attempts + if a.getFile.Unavailable? then 1 else 0
  {
  }

  /** Polls that find the index still working number at most the 30-second units of the wait. */
  lemma {:induction false} StillIndexingPolls(cfg: Config, row: Link, moves: seq<Move>)
    requires StaysSubmitted(cfg, row, moves) && EnabledRun(cfg, row, moves)
    ensures |moves| - Outages(moves) + PollsLeft(cfg, AfterMoves(cfg, row, moves)) <= PollsLeft(cfg, row)
    ensures PollsLeft(cfg, row) <= CeilDiv(cfg.maxWaitSeconds * SECOND, UNIT)
    decreases |moves|
  {
    hide Process, Backoff;
    CeilDivMonotone(row.updatedAt + cfg.maxWaitSeconds * SECOND - NotBefore(row), cfg.maxWaitSeconds * SECOND);
    if moves != [] {
      var now, a := moves[0].now, moves[0].a;
      var after := Process(cfg, row, now, a).row;
      StaysSubmittedStep(cfg, row, now, a);
      ProcessShape(cfg, row, now, a);
      BackoffBounds(row.attempts);
      BackoffBounds(after.attempts);
      var left := row.updatedAt + cfg.maxWaitSeconds * SECOND - NotBefore(row);
      var left' := after.updatedAt + cfg.maxWaitSeconds * SECOND - NotBefore(after);
      CeilDivMonotone(left', left);
      if !a.getFile.Unavailable? { CeilDivFalls(left); }
      StillIndexingPolls(cfg, after, moves[1..]);
    }
  }
}
