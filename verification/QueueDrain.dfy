/** With the clock held still the queue drains, and no due row is starved. */
module QueueDrain {
  import opened IndexLinks
  import opened LinkRepository
  import opened SyncSpec
  import opened StepShape
  import opened SyncJob

  function EarlyIds(rows: map<LinkId, Link>, now: Time): set<LinkId> {
    set id | id in rows && Due(rows[id], now) && Early(rows[id])
  }

  /** How many claims the table can still give rise to at this instant. */
  function Potential(rows: map<LinkId, Link>, now: Time): nat {
    |DueIds(rows, now)| + |EarlyIds(rows, now)|
  }

  /** One step at a due row: a row that could be handed on no longer can; any other leaves the due set. */
  lemma StepLeavesDueSet(cfg: Config, row: Link, now: Time, a: Answers)
    requires Due(row, now) && now < CONFIRMED_REMOVAL_AT && Typed(a)
    ensures var after := Process(cfg, row, now, a).row;
            Due(after, now) ==> Early(row) && !Early(after)
  {
    hide Process, Backoff;
    ProcessShape(cfg, row, now, a);
    BackoffBounds(row.attempts);
    BackoffBounds(row.attempts + 1);
  }

  // ----- Ticks -----

  datatype Tick = Tick(claimed: seq<LinkId>, world: LinkId -> Answers)

  function AfterTick(cfg: Config, rows: map<LinkId, Link>, now: Time, t: Tick): map<LinkId, Link> {
    map id | id in rows :: if id in t.claimed then Process(cfg, rows[id], now, t.world(id)).row else rows[id]
  }

  ghost predicate ValidTick(rows: map<LinkId, Link>, limit: nat, now: Time, t: Tick) {
    && FirstOf(rows, DueIds(rows, now), limit, t.claimed)
    && forall id | id in t.claimed :: Typed(t.world(id))
  }

  ghost predicate ValidRun(cfg: Config, rows: map<LinkId, Link>, limit: nat, now: Time, run: seq<Tick>) {
    run == [] ||
    (ValidTick(rows, limit, now, run[0]) && ValidRun(cfg, AfterTick(cfg, rows, now, run[0]), limit, now, run[1..]))
  }

  function AfterRun(cfg: Config, rows: map<LinkId, Link>, now: Time, run: seq<Tick>): map<LinkId, Link> {
    if run == [] then rows else AfterRun(cfg, AfterTick(cfg, rows, now, run[0]), now, run[1..])
  }

  function TotalClaimed(run: seq<Tick>): nat {
    if run == [] then 0 else |run[0].claimed| + TotalClaimed(run[1..])
  }

  ghost function SetOf(ids: seq<LinkId>): set<LinkId> {
    set id | id in ids
  }

  lemma DistinctCardinality(ids: seq<LinkId>)
    requires forall i, j | 0 <= i < j < |ids| :: ids[i] != ids[j]
    ensures |SetOf(ids)| == |ids|
  {
    if ids != [] {
      var front, last := ids[..|ids| - 1], ids[|ids| - 1];
      DistinctCardinality(front);
      assert ids == front + [last];
      assert last !in front;
      assert SetOf(ids) == SetOf(front) + {last};
    }
  }

  lemma TickLowersPotential(cfg: Config, rows: map<LinkId, Link>, limit: nat, now: Time, t: Tick)
    requires now < CONFIRMED_REMOVAL_AT && ValidTick(rows, limit, now, t)
    ensures Potential(AfterTick(cfg, rows, now, t), now) + |t.claimed| <= Potential(rows, now)
  {
    var after := AfterTick(cfg, rows, now, t);
    var claimed := SetOf(t.claimed);
    OrderedIsDistinct(rows, t.claimed);
    DistinctCardinality(t.claimed);
    forall id | id in claimed
      ensures id in DueIds(rows, now)
      ensures id in DueIds(after, now) ==> id in EarlyIds(rows, now) && id !in EarlyIds(after, now)
    {
      StepLeavesDueSet(cfg, rows[id], now, t.world(id));
    }
    CountingArgument(DueIds(rows, now), EarlyIds(rows, now), DueIds(after, now), EarlyIds(after, now), claimed);
  }

  lemma CountingArgument(due: set<LinkId>, early: set<LinkId>, due': set<LinkId>, early': set<LinkId>,
                         claimed: set<LinkId>)
    requires claimed <= due && early' <= due'
    requires forall id | id in claimed && id in due' :: id in early && id !in early'
    requires forall id | id in due' && id !in claimed :: id in due && (id in early' ==> id in early)
    ensures |due'| + |early'| + |claimed| <= |due| + |early|
  {
    SubsetCardinality(due', (due - claimed) + (claimed * early));
    SubsetCardinality(early', early - claimed);
    assert early == (early - claimed) + (claimed * early);
    assert due == (due - claimed) + claimed;
  }

  lemma SubsetCardinality(a: set<LinkId>, b: set<LinkId>)
    requires a <= b
    ensures |a| <= |b|
  {
    assert b == a + (b - a);
  }

  /**
   * Over any run of ticks at one instant, n due rows are claimed at most 2n times
   * in all, and after 2n ticks nothing is due.
   */
  lemma {:induction false} Drains(cfg: Config, rows: map<LinkId, Link>, limit: nat, now: Time, run: seq<Tick>)
    requires limit >= 1 && now < CONFIRMED_REMOVAL_AT && ValidRun(cfg, rows, limit, now, run)
    ensures TotalClaimed(run) + Potential(AfterRun(cfg, rows, now, run), now) <= Potential(rows, now)
    ensures Potential(rows, now) <= 2 * |DueIds(rows, now)|
    ensures DueIds(AfterRun(cfg, rows, now, run), now) != {} ==> TotalClaimed(run) >= |run|
    ensures |run| >= 2 * |DueIds(rows, now)| ==> DueIds(AfterRun(cfg, rows, now, run), now) == {}
  {
    SubsetCardinality(EarlyIds(rows, now), DueIds(rows, now));
    if run != [] {
      TickLowersPotential(cfg, rows, limit, now, run[0]);
      Drains(cfg, AfterTick(cfg, rows, now, run[0]), limit, now, run[1..]);
      if DueIds(rows, now) == {} {
        NothingDueStaysSo(cfg, rows, limit, now, run);
      }
    }
  }

  lemma {:induction false} NothingDueStaysSo(cfg: Config, rows: map<LinkId, Link>, limit: nat, now: Time,
                                             run: seq<Tick>)
    requires ValidRun(cfg, rows, limit, now, run) && DueIds(rows, now) == {}
    ensures AfterRun(cfg, rows, now, run) == rows
  {
    if run != [] {
      assert run[0].claimed == [];
      assert AfterTick(cfg, rows, now, run[0]) == rows;
      NothingDueStaysSo(cfg, rows, limit, now, run[1..]);
    }
  }

  /** The tick of a run is what the job's `Run` does to the table. */
  lemma RunTakesTick(cfg: Config, before: map<LinkId, Link>, after: map<LinkId, Link>, now: Time, t: Tick)
    requires Ticked(cfg, before, after, t.claimed, now, t.world)
    ensures after == AfterTick(cfg, before, now, t)
  {
  }
}
