/** Paged backfill of file records that have no row in the index queue. */
module Backfill {
  import opened Common
  import opened IndexLinks
  import opened LinkRepository
  import opened RegistrationTarget

  datatype Stored = Stored(file: FileRecord, createdAt: Time, active: bool)

  type Files = map<FileId, Stored>

  datatype Cursor = Cursor(createdAt: Time, recordId: FileId)

  predicate Linked(rows: map<LinkId, Link>, id: FileId) {
    exists link | link in rows :: rows[link].fileRecordId == Some(id)
  }

  predicate Past(after: Option<Cursor>, createdAt: Time, id: FileId) {
    after.Some? ==>
      || createdAt > after.value.createdAt
      || (createdAt == after.value.createdAt && id > after.value.recordId)
  }

  /** `_backfill_select`: active Files and Photos records without a row, past the cursor. */
  function Selected(files: Files, rows: map<LinkId, Link>, after: Option<Cursor>): set<FileId> {
    set id | id in files && files[id].active && !Linked(rows, id)
             && (files[id].file.section == IndexLinks.Files || files[id].file.section == Photos)
             && Past(after, files[id].createdAt, id)
  }

  predicate Earlier(files: Files, a: FileId, b: FileId)
    requires a in files && b in files
  {
    files[a].createdAt < files[b].createdAt || (files[a].createdAt == files[b].createdAt && a < b)
  }

  ghost predicate InOrder(files: Files, ids: seq<FileId>) {
    && (forall i | 0 <= i < |ids| :: ids[i] in files)
    && forall i, j | 0 <= i < j < |ids| :: Earlier(files, ids[i], ids[j])
  }

  /** The first `limit` of a set in (created_at, id) order. */
  ghost predicate FirstPage(files: Files, wanted: set<FileId>, limit: nat, page: seq<FileId>)
    requires wanted <= files.Keys
  {
    && InOrder(files, page)
    && (forall id | id in page :: id in wanted)
    && |page| == Min(limit, |wanted|)
    && forall a, b | a in page && b in wanted && b !in page :: Earlier(files, a, b)
  }

  function CursorAfter(files: Files, page: seq<FileId>): Option<Cursor>
    requires forall id | id in page :: id in files
  {
    if page == [] then None
    else
      var last := page[|page| - 1];
      assert last in page;
      Some(Cursor(files[last].createdAt, last))
  }

  lemma {:induction false} EarliestExists(files: Files, wanted: set<FileId>) returns (first: FileId)
    requires wanted <= files.Keys && wanted != {}
    ensures first in wanted && forall id | id in wanted && id != first :: Earlier(files, first, id)
    decreases |wanted|
  {
    var x :| x in wanted;
    var rest := wanted - {x};
    assert forall id | id in wanted :: id == x || id in rest;
    first := x;
    if rest != {} {
      var y := EarliestExists(files, rest);
      first := if Earlier(files, y, x) then y else x;
      assert x in files && y in rest && y in files && x != y;
      forall id | id in wanted && id != first ensures Earlier(files, first, id) {
        assert id == x || id in rest;
        if id in rest && id != y { assert Earlier(files, y, id); }
      }
    }
  }

  lemma PageHasNoRepeats(files: Files, page: seq<FileId>)
    requires InOrder(files, page)
    ensures |Ids(page)| == |page|
  {
    if page != [] {
      var init, last := page[..|page| - 1], page[|page| - 1];
      PageHasNoRepeats(files, init);
      forall i | 0 <= i < |init| ensures init[i] != last {
        assert Earlier(files, page[i], page[|page| - 1]);
      }
      assert page == init + [last];
      assert Ids(page) == Ids(init) + {last};
    }
  }

  function Ids(page: seq<FileId>): set<FileId> {
    set id | id in page
  }

  /** Rows were only added, and only for the given records. */
  ghost predicate GrownFor(before: map<LinkId, Link>, after: map<LinkId, Link>, ids: set<FileId>) {
    && before.Keys <= after.Keys
    && (forall link | link in before :: after[link] == before[link])
    && forall link | link in after && link !in before :: exists id | id in ids :: after[link].fileRecordId == Some(id)
  }

  /**
   * After a page the selection past its last record is what the page left,
   * whether or not the page's records got their rows.
   */
  lemma SelectionAfterPage(files: Files, before: map<LinkId, Link>, after: map<LinkId, Link>, cursor: Option<Cursor>,
                           limit: nat, page: seq<FileId>)
    requires FirstPage(files, Selected(files, before, cursor), limit, page) && page != []
    requires GrownFor(before, after, Ids(page))
    ensures Selected(files, after, CursorAfter(files, page)) == Selected(files, before, cursor) - Ids(page)
  {
    var last := page[|page| - 1];
    var wanted := Selected(files, before, cursor);
    assert last in page && last in wanted;
    forall id | id in files
      ensures id in Selected(files, after, CursorAfter(files, page)) <==> id in wanted && id !in page
    {
      if Linked(before, id) {
        var link :| link in before && before[link].fileRecordId == Some(id);
        assert after[link].fileRecordId == Some(id);
      }
      if id in page {
        var i :| 0 <= i < |page| && page[i] == id;
        assert i < |page| - 1 ==> Earlier(files, page[i], page[|page| - 1]);
      } else if id in wanted {
        assert Earlier(files, last, id);
      }
    }
  }

  /** The decision is to send, in a section the queue takes. */
  predicate Sendable(r: FileRecord, maxImageBytes: int) {
    && Decide(r, maxImageBytes).Target?
    && Decide(r, maxImageBytes).decision.kind != Skip
    && (r.section == IndexLinks.Files || r.section == Photos)
  }

  /** The records of a page that should get a PENDING row. */
  function Accepted(files: Files, maxImageBytes: int, page: seq<FileId>, raises: set<FileId>): seq<FileId>
    requires forall i | 0 <= i < |page| :: page[i] in files
  {
    if page == [] then []
    else
      var last := page[|page| - 1];
      Accepted(files, maxImageBytes, page[..|page| - 1], raises)
      + if last !in raises && Sendable(files[last].file, maxImageBytes) then [last] else []
  }

  predicate CountsAccepted(files: Files, maxImageBytes: int, page: seq<FileId>, raises: set<FileId>, enqueued: nat) {
    (forall i | 0 <= i < |page| :: page[i] in files) && enqueued == |Accepted(files, maxImageBytes, page, raises)|
  }

  predicate QueuedPending(rows: map<LinkId, Link>, id: FileId) {
    exists link | link in rows :: rows[link].fileRecordId == Some(id) && rows[link].state == Pending
  }

  datatype BackfillResult = BackfillResult(examined: nat, enqueued: nat, skipped: nat, nextCursor: Option<Cursor>,
    remaining: nat)

  class Backfiller {
    const files: Files
    const links: Repository
    const maxImageBytes: int
    var nextLink: LinkId

    constructor (files: Files, links: Repository, maxImageBytes: int, nextLink: LinkId)
      ensures this.files == files && this.links == links && this.maxImageBytes == maxImageBytes
              && this.nextLink == nextLink
    {
      this.files, this.links, this.maxImageBytes, this.nextLink := files, links, maxImageBytes, nextLink;
    }

    ghost predicate Valid()
      reads this, links
    {
      && links.Valid()
      && (forall id | id in files :: files[id].file.id == id)
      && forall link | link in links.rows :: link < nextLink
    }

    method Candidates(limit: nat, after: Option<Cursor>) returns (page: seq<FileId>)
      ensures FirstPage(files, Selected(files, links.rows, after), limit, page)
    {
      page := [];
      ghost var wanted := Selected(files, links.rows, after);
      var rest := Selected(files, links.rows, after);
      while |page| < limit && rest != {}
        invariant rest <= wanted && |rest| + |page| == |wanted| && |page| <= limit
        invariant InOrder(files, page)
        invariant forall id | id in wanted :: id in rest <==> id !in page
        invariant forall id | id in page :: id in wanted
        invariant forall a, b | a in page && b in rest :: Earlier(files, a, b)
        decreases |rest|
      {
        ghost var hint := EarliestExists(files, rest);
        assert forall id | id in rest && id != hint :: Earlier(files, hint, id);
        var first :| first in rest && forall id | id in rest && id != first :: Earlier(files, first, id);
        assert forall i | 0 <= i < |page| :: page[i] in page;
        page, rest := page + [first], rest - {first};
      }
    }

    /** Whether the queue accepted a PENDING row; whatever the repository raises counts as skipped. */
    method EnqueueRecord(id: FileId, raises: bool, now: Time) returns (accepted: bool)
      requires Valid() && id in files && !Linked(links.rows, id)
      modifies this, links
      ensures Valid() && GrownFor(old(links.rows), links.rows, {id})
      ensures accepted ==> QueuedPending(links.rows, id)
      ensures accepted <==> !raises && Sendable(files[id].file, maxImageBytes)
    {
      var decided := Decide(files[id].file, maxImageBytes);
      if !decided.Target? || raises { return false; }
      var u := links.UpsertPending(files[id].file, decided.decision, nextLink, now);
      nextLink := nextLink + 1;
      return u.Inserted? && u.link.state == Pending;
    }

    /** One page: every record examined once, counted as enqueued or skipped. */
    method EnqueuePage(page: seq<FileId>, raises: set<FileId>, now: Time)
      returns (examined: nat, enqueued: nat, skipped: nat)
      requires Valid() && InOrder(files, page) && forall id | id in page :: id in files && !Linked(links.rows, id)
      modifies this, links
      ensures Valid() && GrownFor(old(links.rows), links.rows, Ids(page))
      ensures examined == |page| && enqueued + skipped == examined
      ensures enqueued == |Accepted(files, maxImageBytes, page, raises)|
      ensures forall id | id in Accepted(files, maxImageBytes, page, raises) :: QueuedPending(links.rows, id)
    {
      hide GrownFor, QueuedPending, Linked, Sendable, InOrder, Ids;
      examined, enqueued, skipped := 0, 0, 0;
      NothingAdded(links.rows, page);
      for i := 0 to |page|
        invariant Valid() && GrownFor(old(links.rows), links.rows, Ids(page[..i]))
        invariant examined == i && enqueued + skipped == i
        invariant enqueued == |Accepted(files, maxImageBytes, page[..i], raises)|
        invariant forall id | id in Accepted(files, maxImageBytes, page[..i], raises) :: QueuedPending(links.rows, id)
        invariant forall j | i <= j < |page| :: !Linked(links.rows, page[j])
      {
        examined := examined + 1;
        assert page[..i + 1][..i] == page[..i];
        ghost var before := links.rows;
        var accepted := EnqueueRecord(page[i], page[i] in raises, now);
        StillUnlinked(files, before, links.rows, page, i);
        GrownByOneMore(old(links.rows), before, links.rows, page, i);
        PendingStays(before, links.rows, {page[i]}, Accepted(files, maxImageBytes, page[..i], raises));
        if accepted { enqueued := enqueued + 1; } else { skipped := skipped + 1; }
      }
      assert page[..|page|] == page;
    }

    /** One call: the first page past the cursor, and how many are left past it. */
    method Pass(limit: nat, after: Option<Cursor>, raises: set<FileId>, now: Time)
      returns (r: BackfillResult, ghost page: seq<FileId>)
      requires Valid() && limit >= 1
      modifies this, links
      ensures Valid() && FirstPage(files, Selected(files, old(links.rows), after), limit, page)
      ensures r.examined == |page| && r.enqueued + r.skipped == r.examined
      ensures CountsAccepted(files, maxImageBytes, page, raises, r.enqueued)
      ensures r.nextCursor == CursorAfter(files, page)
      ensures GrownFor(old(links.rows), links.rows, Ids(page))
      ensures var cursor := if r.nextCursor.Some? then r.nextCursor else after;
              && Selected(files, links.rows, cursor) == Selected(files, old(links.rows), after) - Ids(page)
              && r.remaining == |Selected(files, links.rows, cursor)|
      ensures r.remaining == |Selected(files, old(links.rows), after)| - r.examined
    {
      var candidates := Candidates(limit, after);
      page := candidates;
      assert forall id | id in page :: id in Selected(files, links.rows, after);
      var examined, enqueued, skipped := EnqueuePage(candidates, raises, now);
      var nextCursor := CursorAfter(files, candidates);
      var cursor := if nextCursor.Some? then nextCursor else after;
      PageHasNoRepeats(files, page);
      LessSome(Selected(files, old(links.rows), after), Ids(page));
      if page != [] {
        SelectionAfterPage(files, old(links.rows), links.rows, after, limit, page);
      } else {
        assert Ids(page) == {};
        NothingGrown(files, old(links.rows), links.rows, after);
      }
      var remaining := |Selected(files, links.rows, cursor)|;
      return BackfillResult(examined, enqueued, skipped, nextCursor, remaining), page;
    }

    /**
     * Calls that pass each result's cursor to the next until nothing remains:
     * every candidate is examined exactly once, in order, although some enqueues
     * fail, and it takes ceil(N / limit) calls.
     */
    method CallUntilDone(limit: nat, raises: set<FileId>, now: Time) returns (calls: nat, ghost order: seq<FileId>)
      requires Valid() && limit >= 1
      modifies this, links
      ensures Valid() && InOrder(files, order)
      ensures forall id :: id in order <==> id in Selected(files, old(links.rows), None)
      ensures |order| == |Selected(files, old(links.rows), None)| && calls == CeilDiv(|order|, limit)
      ensures Covers(files, old(links.rows), order)
    {
      hide Selected, FirstPage, GrownFor, InOrder, CeilDiv, CountsAccepted, Covers;
      ghost var all := Selected(files, links.rows, None);
      calls, order := 0, [];
      StartCovering(files, links.rows, limit);
      var cursor: Option<Cursor> := None;
      var remaining := |Selected(files, links.rows, None)|;
      while remaining > 0
        invariant Valid() && remaining == |Selected(files, links.rows, cursor)| && |order| + remaining == |all|
        invariant Covering(files, all, order, Selected(files, links.rows, cursor))
        invariant calls == CeilDiv(|order|, limit) && (remaining > 0 ==> |order| == calls * limit)
      {
        ghost var left := Selected(files, links.rows, cursor);
        var r, page := Pass(limit, cursor, raises, now);
        CoverPage(files, all, order, left, limit, page);
        FullPages(|order|, calls, limit, |page|);
        calls, order := calls + 1, order + page;
        cursor, remaining := r.nextCursor, r.remaining;
      }
      NothingLeft(files, all, order, Selected(files, links.rows, cursor));
      SelectedInOrder(files, old(links.rows), order);
    }
  }

  /** The active FILES and PHOTOS records without a row, the oldest first, ids deciding ties. */
  ghost predicate Covers(files: Files, rows: map<LinkId, Link>, order: seq<FileId>) {
    && (forall id :: id in order <==>
          && id in files && files[id].active && files[id].file.section in {IndexLinks.Files, Photos}
          && forall link | link in rows :: rows[link].fileRecordId != Some(id))
    && forall i, j | 0 <= i < j < |order| ::
         && order[i] in files && order[j] in files
         && (|| files[order[i]].createdAt < files[order[j]].createdAt
             || (files[order[i]].createdAt == files[order[j]].createdAt && order[i] < order[j]))
  }

  lemma SelectedInOrder(files: Files, rows: map<LinkId, Link>, order: seq<FileId>)
    requires InOrder(files, order) && forall id :: id in order <==> id in Selected(files, rows, None)
    ensures Covers(files, rows, order)
  {
    forall i, j | 0 <= i < j < |order|
      ensures order[i] in files && order[j] in files
      ensures || files[order[i]].createdAt < files[order[j]].createdAt
              || (files[order[i]].createdAt == files[order[j]].createdAt && order[i] < order[j])
    {
      assert Earlier(files, order[i], order[j]);
    }
  }

  /** What was examined comes before what is left, and together they are all. */
  ghost predicate Covering(files: Files, all: set<FileId>, order: seq<FileId>, left: set<FileId>) {
    && left <= files.Keys && InOrder(files, order)
    && (forall id :: id in all <==> id in order || id in left)
    && forall a, b | a in order && b in left :: a in files && Earlier(files, a, b)
  }

  lemma StartCovering(files: Files, rows: map<LinkId, Link>, limit: nat)
    requires limit >= 1
    ensures Covering(files, Selected(files, rows, None), [], Selected(files, rows, None)) && CeilDiv(0, limit) == 0
  {
  }

  lemma NothingLeft(files: Files, all: set<FileId>, order: seq<FileId>, left: set<FileId>)
    requires Covering(files, all, order, left) && |left| == 0
    ensures InOrder(files, order) && forall id :: id in order <==> id in all
  {
  }

  lemma LessSome(all: set<FileId>, some: set<FileId>)
    requires some <= all
    ensures |all - some| == |all| - |some|
  {
  }

  lemma NothingAdded(rows: map<LinkId, Link>, page: seq<FileId>)
    ensures GrownFor(rows, rows, Ids(page[..0]))
  {
  }

  lemma PendingStays(before: map<LinkId, Link>, after: map<LinkId, Link>, ids: set<FileId>, accepted: seq<FileId>)
    requires GrownFor(before, after, ids) && forall id | id in accepted :: QueuedPending(before, id)
    ensures forall id | id in accepted :: QueuedPending(after, id)
  {
    forall id | id in accepted ensures QueuedPending(after, id) {
      var link :| link in before && before[link].fileRecordId == Some(id) && before[link].state == Pending;
      assert after[link] == before[link];
    }
  }

  lemma NothingGrown(files: Files, before: map<LinkId, Link>, after: map<LinkId, Link>, cursor: Option<Cursor>)
    requires GrownFor(before, after, {})
    ensures after == before && Selected(files, after, cursor) == Selected(files, before, cursor)
  {
    assert after.Keys == before.Keys;
  }

  lemma StillUnlinked(files: Files, before: map<LinkId, Link>, after: map<LinkId, Link>, page: seq<FileId>, i: nat)
    requires i < |page| && InOrder(files, page) && GrownFor(before, after, {page[i]})
    requires forall j | i <= j < |page| :: !Linked(before, page[j])
    ensures forall j | i + 1 <= j < |page| :: !Linked(after, page[j])
  {
    forall j | i + 1 <= j < |page| ensures !Linked(after, page[j]) {
      assert Earlier(files, page[i], page[j]);
      forall link | link in after ensures after[link].fileRecordId != Some(page[j]) {
        if link in before {
          assert before[link].fileRecordId != Some(page[j]);
        }
      }
    }
  }

  lemma GrownByOneMore(start: map<LinkId, Link>, before: map<LinkId, Link>, after: map<LinkId, Link>, page: seq<FileId>,
                       i: nat)
    requires i < |page| && GrownFor(start, before, Ids(page[..i])) && GrownFor(before, after, {page[i]})
    ensures GrownFor(start, after, Ids(page[..i + 1]))
  {
    assert page[..i + 1] == page[..i] + [page[i]];
    var more := Ids(page[..i + 1]);
    forall link | link in after && link !in start
      ensures exists id | id in more :: after[link].fileRecordId == Some(id)
    {
      if link in before {
        var id :| id in page[..i] && before[link].fileRecordId == Some(id);
        assert id in more;
      } else {
        assert page[i] in more && after[link].fileRecordId == Some(page[i]);
      }
    }
  }

  lemma CoverPage(files: Files, all: set<FileId>, order: seq<FileId>, left: set<FileId>, limit: nat, page: seq<FileId>)
    requires Covering(files, all, order, left) && FirstPage(files, left, limit, page)
    requires limit >= 1 && left != {}
    ensures Covering(files, all, order + page, left - Ids(page))
    ensures 0 < |page| <= limit && (|left| > |page| ==> |page| == limit)
  {
    assert forall i | 0 <= i < |order| :: order[i] in order;
    assert forall i | 0 <= i < |page| :: page[i] in page;
    forall i, j | 0 <= i < j < |order + page| ensures Earlier(files, (order + page)[i], (order + page)[j]) {
      if i < |order| <= j {
        assert order[i] in order && page[j - |order|] in left;
      }
    }
  }

  lemma FullPages(done: nat, calls: nat, limit: nat, page: nat)
    requires limit >= 1 && done == calls * limit && 0 < page <= limit
    ensures CeilDiv(done + page, limit) == calls + 1
    ensures page == limit ==> done + page == (calls + 1) * limit
  {
    assert done + page + limit - 1 == (calls + 1) * limit + (page - 1);
    DivideExactly(calls + 1, limit, page - 1);
  }

  lemma DivideExactly(q: nat, d: nat, r: nat)
    requires r < d
    ensures (q * d + r) / d == q
  {
    var x := (q * d + r) / d;
    assert x * d <= q * d + r < x * d + d;
    assert x < q ==> (x + 1) * d <= q * d;
    assert x > q ==> (q + 1) * d <= x * d;
  }
}
