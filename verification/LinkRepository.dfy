/** The `file_index_links` table: request-path marks, claims and column updates. */
module LinkRepository {
  import opened Common
  import opened IndexLinks
  import opened RegistrationTarget

  // ----- One row after each request-path event -----

  function InsertedRow(id: LinkId, r: FileRecord, d: RegistrationDecision, now: Time): Link {
    Link(id, Some(r.id), r.userId, r.section, d.s3Key, d.contentSha256, d.contentType, None,
         if d.kind == Skip then Skipped else Pending, 0, None,
         if d.kind == Skip then d.skipCode else None, now, now)
  }

  function ContentChangedMark(link: Link, d: RegistrationDecision, now: Time): Link {
    Stamp(link, link.(state := if link.ragFileId.Some? then ReindexPending else Pending, attempts := 0,
                      s3Key := d.s3Key, contentSha256 := d.contentSha256, contentType := d.contentType,
                      lastErrorCode := None, nextAttemptAt := None), now)
  }

  function RekeyMark(link: Link, key: string, now: Time): Link {
    if link.ragFileId.None? then Stamp(link, link.(s3Key := key), now)
    else Stamp(link, link.(state := Pending, s3Key := key, nextAttemptAt := Some(now)), now)
  }

  function RemovedMark(link: Link, now: Time): Link {
    Stamp(link, link.(state := Removed, nextAttemptAt := None), now)
  }

  function ArchivedMark(link: Link, now: Time): Link {
    Stamp(link, link.(state := Archived, nextAttemptAt := None), now)
  }

  function RetryMark(link: Link, now: Time): Link {
    Stamp(link, link.(state := if link.ragFileId.Some? then Submitted else Pending, attempts := 0,
                      nextAttemptAt := None, lastErrorCode := None), now)
  }

  // ----- Selection in queue order -----

  function DueIds(rows: map<LinkId, Link>, now: Time): set<LinkId> {
    set id | id in rows && Due(rows[id], now)
  }

  function FailedIds(rows: map<LinkId, Link>): set<LinkId> {
    set id | id in rows && rows[id].state == Failed
  }

  ghost predicate Ordered(rows: map<LinkId, Link>, ids: seq<LinkId>) {
    && (forall i | 0 <= i < |ids| :: ids[i] in rows)
    && (forall i, j | 0 <= i < j < |ids| :: Before(rows[ids[i]], rows[ids[j]]))
  }

  ghost predicate AfterAll(rows: map<LinkId, Link>, ids: seq<LinkId>, link: Link)
    requires forall i | 0 <= i < |ids| :: ids[i] in rows
  {
    forall i | 0 <= i < |ids| :: Before(rows[ids[i]], link)
  }

  /** `picked` is the `limit` first of `wanted` in queue order. */
  ghost predicate FirstOf(rows: map<LinkId, Link>, wanted: set<LinkId>, limit: nat, picked: seq<LinkId>)
    requires wanted <= rows.Keys
  {
    && Ordered(rows, picked)
    && (forall i | 0 <= i < |picked| :: picked[i] in wanted)
    && |picked| == Min(limit, |wanted|)
    && (forall id | id in wanted && id !in picked :: AfterAll(rows, picked, rows[id]))
  }

  predicate IsOldest(rows: map<LinkId, Link>, wanted: set<LinkId>, first: LinkId)
    requires wanted <= rows.Keys && first in wanted
  {
    forall id | id in wanted && id != first :: Before(rows[first], rows[id])
  }

  lemma {:induction false} OldestExists(rows: map<LinkId, Link>, wanted: set<LinkId>) returns (first: LinkId)
    requires Keyed(rows) && wanted <= rows.Keys && wanted != {}
    ensures first in wanted && IsOldest(rows, wanted, first)
    decreases |wanted|
  {
    var x :| x in wanted;
    var rest := wanted - {x};
    assert forall id | id in wanted :: id == x || id in rest;
    first := x;
    if rest != {} {
      var y := OldestExists(rows, rest);
      assert rows[x].id == x && rows[y].id == y;
      first := if Before(rows[y], rows[x]) then y else x;
      forall id | id in wanted && id != first ensures Before(rows[first], rows[id]) {
        if id in rest && id != y {
          assert Before(rows[y], rows[id]);
          if first == x { BeforeTransitive(rows[x], rows[y], rows[id]); }
        }
      }
    }
  }

  lemma OldestComesFirst(rows: map<LinkId, Link>, wanted: set<LinkId>, first: LinkId, id: LinkId)
    requires wanted <= rows.Keys && first in wanted && IsOldest(rows, wanted, first) && id in wanted && id != first
    ensures Before(rows[first], rows[id])
  {
  }

  lemma BeforeTransitive(a: Link, b: Link, c: Link)
    requires Before(a, b) && Before(b, c)
    ensures Before(a, c)
  {
  }

  lemma OrderedIsDistinct(rows: map<LinkId, Link>, ids: seq<LinkId>)
    requires Ordered(rows, ids)
    ensures forall i, j | 0 <= i < j < |ids| :: ids[i] != ids[j]
  {
    forall i, j | 0 <= i < j < |ids| ensures ids[i] != ids[j] {
      assert Before(rows[ids[i]], rows[ids[j]]);
    }
  }

  /** Neither indexed, failed nor skipped, not private, and its time has come. */
  function Claimable(rows: map<LinkId, Link>, now: Time): set<LinkId> {
    set id | id in rows && rows[id].state !in {Indexed, Failed, Skipped} && rows[id].section != Private
             && (rows[id].nextAttemptAt.Some? ==> rows[id].nextAttemptAt.value <= now)
  }

  /** Sorted by age, ids deciding ties; whatever was wanted and not picked is younger, and left for the limit alone. */
  ghost predicate OldestFirst(rows: map<LinkId, Link>, wanted: set<LinkId>, limit: nat, picked: seq<LinkId>) {
    && (forall id | id in picked :: id in wanted && id in rows) && wanted <= rows.Keys
    && (forall i, j | 0 <= i < j < |picked| ::
          || rows[picked[i]].createdAt < rows[picked[j]].createdAt
          || (rows[picked[i]].createdAt == rows[picked[j]].createdAt && picked[i] < picked[j]))
    && forall id | id in wanted && id !in picked ::
         && |picked| == limit
         && forall i | 0 <= i < |picked| ::
              || rows[picked[i]].createdAt < rows[id].createdAt
              || (rows[picked[i]].createdAt == rows[id].createdAt && picked[i] < id)
  }

  lemma FirstOfIsOldest(rows: map<LinkId, Link>, wanted: set<LinkId>, limit: nat, picked: seq<LinkId>)
    requires Keyed(rows) && wanted <= rows.Keys && FirstOf(rows, wanted, limit, picked)
    ensures OldestFirst(rows, wanted, limit, picked)
  {
    forall id | id in wanted && id !in picked ensures |picked| == limit {
      OrderedIsDistinct(rows, picked);
      AsMany(picked);
      assert forall i | i in picked :: i in wanted;
      FewerThan(IdSet(picked), wanted - {id});
    }
    forall i, j | 0 <= i < j < |picked|
      ensures || rows[picked[i]].createdAt < rows[picked[j]].createdAt
              || (rows[picked[i]].createdAt == rows[picked[j]].createdAt && picked[i] < picked[j])
    {
      assert Before(rows[picked[i]], rows[picked[j]]);
    }
    forall i, id | 0 <= i < |picked| && id in wanted && id !in picked
      ensures || rows[picked[i]].createdAt < rows[id].createdAt
              || (rows[picked[i]].createdAt == rows[id].createdAt && picked[i] < id)
    {
      assert AfterAll(rows, picked, rows[id]) && Before(rows[picked[i]], rows[id]);
    }
  }

  function IdSet(ids: seq<LinkId>): set<LinkId> {
    set id | id in ids
  }

  lemma {:induction false} AsMany(ids: seq<LinkId>)
    requires forall i, j | 0 <= i < j < |ids| :: ids[i] != ids[j]
    ensures |IdSet(ids)| == |ids|
  {
    if ids != [] {
      var init, last := ids[..|ids| - 1], ids[|ids| - 1];
      AsMany(init);
      assert ids == init + [last];
      assert last !in init;
      assert IdSet(ids) == IdSet(init) + {last};
    }
  }

  lemma {:induction false} FewerThan(a: set<LinkId>, b: set<LinkId>)
    requires a <= b
    ensures |a| <= |b|
  {
    if a != {} {
      var x :| x in a;
      FewerThan(a - {x}, b - {x});
    }
  }

  lemma DueAreRows(rows: map<LinkId, Link>, now: Time)
    ensures DueIds(rows, now) <= rows.Keys
  {
  }

  lemma ClaimsAreOldest(rows: map<LinkId, Link>, now: Time, limit: nat, picked: seq<LinkId>)
    requires Keyed(rows) && FirstOf(rows, DueIds(rows, now), limit, picked)
    ensures OldestFirst(rows, Claimable(rows, now), limit, picked)
  {
    hide OldestFirst, FirstOf;
    FirstOfIsOldest(rows, DueIds(rows, now), limit, picked);
    forall id ensures id in DueIds(rows, now) <==> id in Claimable(rows, now) {
      if id in rows { QueueStates(rows[id].state); }
    }
    assert DueIds(rows, now) == Claimable(rows, now);
  }

  lemma QueueStates(state: LinkState)
    ensures InDueState(state) <==> state !in {Indexed, Failed, Skipped}
  {
  }

  method Oldest(rows: map<LinkId, Link>, wanted: set<LinkId>, limit: nat) returns (picked: seq<LinkId>)
    requires Keyed(rows) && wanted <= rows.Keys
    ensures FirstOf(rows, wanted, limit, picked)
  {
    picked := [];
    var rest := wanted;
    while |picked| < limit && rest != {}
      invariant rest <= wanted && |rest| + |picked| == |wanted| && |picked| <= limit
      invariant Ordered(rows, picked)
      invariant forall id | id in wanted :: id in rest <==> id !in picked
      invariant forall i | 0 <= i < |picked| :: picked[i] in wanted
      invariant forall id | id in rest :: AfterAll(rows, picked, rows[id])
      decreases |rest|
    {
      ghost var hint := OldestExists(rows, rest);
      assert IsOldest(rows, rest, hint);
      var first :| first in rest && IsOldest(rows, rest, first);
      forall id | id in rest - {first} ensures AfterAll(rows, picked + [first], rows[id]) {
        OldestComesFirst(rows, rest, first, id);
        assert AfterAll(rows, picked, rows[id]);
      }
      assert AfterAll(rows, picked, rows[first]);
      picked, rest := picked + [first], rest - {first};
    }
  }

  /** `a` occurs before the first `b`. */
  predicate FirstBefore(files: seq<FileId>, a: FileId, b: FileId) {
    exists p | 0 <= p < |files| :: files[p] == a && b !in files[..p]
  }

  predicate MentionedBefore(files: seq<FileId>, a: Link, b: Link) {
    a.fileRecordId.Some? && b.fileRecordId.Some? && FirstBefore(files, a.fileRecordId.value, b.fileRecordId.value)
  }

  /** Whatever was mentioned earlier comes before a newcomer. */
  lemma NewcomerIsLater(files: seq<FileId>, i: nat, a: FileId)
    requires i < |files| && a in files[..i] && files[i] !in files[..i]
    ensures FirstBefore(files, a, files[i])
  {
    var p :| 0 <= p < i && files[p] == a;
    assert forall x | x in files[..p] :: x in files[..i];
  }

  predicate OfFiles(link: Link, files: seq<FileId>) {
    link.fileRecordId.Some? && link.fileRecordId.value in files
  }

  /** Distinct rows, in the order their files are first mentioned. */
  ghost predicate InMentionOrder(rows: map<LinkId, Link>, files: seq<FileId>, ids: seq<LinkId>) {
    && (forall i | 0 <= i < |ids| :: ids[i] in rows)
    && forall i, j | 0 <= i < j < |ids| :: ids[i] != ids[j] && MentionedBefore(files, rows[ids[i]], rows[ids[j]])
  }

  lemma NoneMentioned(rows: map<LinkId, Link>, files: seq<FileId>)
    ensures InMentionOrder(rows, files, [])
  {
  }

  lemma OneMoreMentioned(rows: map<LinkId, Link>, files: seq<FileId>, i: nat, ids: seq<LinkId>, id: LinkId)
    requires InMentionOrder(rows, files, ids) && i < |files| && files[i] !in files[..i]
    requires forall r | r in ids :: r in rows && OfFiles(rows[r], files[..i])
    requires id in rows && rows[id].fileRecordId == Some(files[i])
    ensures InMentionOrder(rows, files, ids + [id])
  {
    hide FirstBefore;
    forall k | 0 <= k < |ids| ensures ids[k] != id && MentionedBefore(files, rows[ids[k]], rows[id]) {
      assert ids[k] in ids;
      NewcomerIsLater(files, i, rows[ids[k]].fileRecordId.value);
    }
  }

  lemma OfOneMoreFile(files: seq<FileId>, i: nat)
    requires i < |files|
    ensures forall link :: OfFiles(link, files[..i + 1]) <==>
              OfFiles(link, files[..i]) || link.fileRecordId == Some(files[i])
  {
    assert files[..i + 1] == files[..i] + [files[i]];
  }

  /** Every row of the given files is marked REMOVED, and every other row is as it was. */
  ghost predicate RemovedRows(before: map<LinkId, Link>, after: map<LinkId, Link>, files: seq<FileId>, now: Time) {
    && after.Keys == before.Keys
    && forall id | id in before ::
         after[id] == if OfFiles(before[id], files) then RemovedMark(before[id], now) else before[id]
  }

  lemma RemoveOneMore(before: map<LinkId, Link>, mid: map<LinkId, Link>, files: seq<FileId>, i: nat, id: LinkId,
                      now: Time)
    requires i < |files| && files[i] !in files[..i]
    requires RemovedRows(before, mid, files[..i], now)
    requires id in mid && mid[id].fileRecordId == Some(files[i])
    requires forall other | other in mid && mid[other].fileRecordId == Some(files[i]) :: other == id
    ensures mid[id] == before[id]
    ensures RemovedRows(before, mid[id := RemovedMark(mid[id], now)], files[..i + 1], now)
  {
    OfOneMoreFile(files, i);
  }

  ghost predicate RetriedRows(before: map<LinkId, Link>, after: map<LinkId, Link>, ids: seq<LinkId>, now: Time) {
    && after.Keys == before.Keys
    && forall id | id in before :: after[id] == if id in ids then RetryMark(before[id], now) else before[id]
  }

  lemma RetryOneMore(before: map<LinkId, Link>, mid: map<LinkId, Link>, ids: seq<LinkId>, i: nat, now: Time)
    requires i < |ids| && Ordered(before, ids) && RetriedRows(before, mid, ids[..i], now)
    ensures mid[ids[i]] == before[ids[i]]
    ensures RetriedRows(before, mid[ids[i] := RetryMark(mid[ids[i]], now)], ids[..i + 1], now)
  {
    OrderedIsDistinct(before, ids);
    assert ids[..i + 1] == ids[..i] + [ids[i]];
  }

  /** What `apply_transition` answers: the row, no row, or a PRIVATE row refused. */
  datatype Transition = Updated(link: Link) | NotFound | Refused

  datatype Upserted = Inserted(link: Link) | Existing(link: Link) | NoRow | PrivateRefusal

  /** Assign one column when it is given and differs, and say whether it changed. */
  method AssignColumn<T(==)>(current: T, u: Update<T>) returns (value: T, changed: bool)
    ensures value == u.Over(current)
    ensures changed <==> value != current
  {
    value, changed := current, false;
    if u.Set? && current != u.value {
      value, changed := u.value, true;
    }
  }

  class Repository {
    var rows: map<LinkId, Link>

    /** Rows sit under their own ids, one per file record, and none is PRIVATE. */
    ghost predicate Valid()
      reads this
    {
      && Keyed(rows)
      && (forall id | id in rows :: rows[id].section != Private)
      && (forall a, b | a in rows && b in rows && rows[a].fileRecordId == rows[b].fileRecordId
                        && rows[a].fileRecordId.Some? :: a == b)
    }

    constructor ()
      ensures rows == map[] && Valid()
    {
      rows := map[];
    }

    method ModelByFileRecordId(file: FileId) returns (found: Option<Link>)
      requires Valid()
      ensures found.Some? ==> found.value.id in rows && rows[found.value.id] == found.value
                              && found.value.fileRecordId == Some(file)
      ensures found.None? ==> forall id | id in rows :: rows[id].fileRecordId != Some(file)
    {
      if exists id | id in rows :: rows[id].fileRecordId == Some(file) {
        var id :| id in rows && rows[id].fileRecordId == Some(file);
        return Some(rows[id]);
      }
      return None;
    }

    /** Assign the given columns one by one; move updatedAt when state or payload changed. */
    method ApplyTransition(id: LinkId, p: Patch, now: Time) returns (t: Transition)
      modifies this
      ensures id !in old(rows) ==> t == NotFound && rows == old(rows)
      ensures id in old(rows) && old(rows)[id].section == Private ==> t == Refused && rows == old(rows)
      ensures id in old(rows) && old(rows)[id].section != Private ==>
                t == Updated(Patched(old(rows)[id], p, now))
                && rows == old(rows)[id := Patched(old(rows)[id], p, now)]
      ensures old(Valid()) ==> Valid()
    {
      if id !in rows { return NotFound; }
      var model := rows[id];
      if model.section == Private { return Refused; }
      var state, stateChanged := AssignColumn(model.state, p.state);
      var attempts, _ := AssignColumn(model.attempts, p.attempts);
      var nextAttemptAt, _ := AssignColumn(model.nextAttemptAt, p.nextAttemptAt);
      var ragFileId, idChanged := AssignColumn(model.ragFileId, p.ragFileId);
      var lastErrorCode, codeChanged := AssignColumn(model.lastErrorCode, p.lastErrorCode);
      var s3Key, keyChanged := AssignColumn(model.s3Key, p.s3Key);
      var contentSha256, hashChanged := AssignColumn(model.contentSha256, p.contentSha256);
      var contentType, typeChanged := AssignColumn(model.contentType, p.contentType);
      model := model.(state := state, attempts := attempts, nextAttemptAt := nextAttemptAt,
                      ragFileId := ragFileId, lastErrorCode := lastErrorCode, s3Key := s3Key,
                      contentSha256 := contentSha256, contentType := contentType);
      if stateChanged || idChanged || codeChanged || keyChanged || hashChanged || typeChanged {
        model := model.(updatedAt := now);
      }
      rows := rows[id := model];
      return Updated(model);
    }

    method UpsertPending(r: FileRecord, d: RegistrationDecision, newId: LinkId, now: Time) returns (u: Upserted)
      requires Valid() && newId !in rows
      modifies this
      ensures Valid()
      ensures u.PrivateRefusal? <==> r.section == Private || r.isEncrypted
      ensures u.NoRow? <==> !u.PrivateRefusal?
                            && ((r.section != Files && r.section != Photos) || d.skipCode == Some(ExcludedSection))
      ensures u.Existing? <==> !u.PrivateRefusal? && !u.NoRow?
                               && exists id | id in old(rows) :: old(rows)[id].fileRecordId == Some(r.id)
      ensures u.Existing? ==> u.link in old(rows).Values && u.link.fileRecordId == Some(r.id)
      ensures u.Inserted? ==> u.link == InsertedRow(newId, r, d, now) && rows == old(rows)[newId := u.link]
      ensures !u.Inserted? ==> rows == old(rows)
    {
      if r.section == Private || r.isEncrypted { return PrivateRefusal; }
      if (r.section != Files && r.section != Photos) || d.skipCode == Some(ExcludedSection) { return NoRow; }
      var existing := ModelByFileRecordId(r.id);
      if existing.Some? {
        assert rows[existing.value.id] == existing.value;
        return Existing(existing.value);
      }
      var link := InsertedRow(newId, r, d, now);
      rows := rows[newId := link];
      return Inserted(link);
    }

    method MarkContentChanged(file: FileId, d: RegistrationDecision, now: Time) returns (t: Transition)
      requires Valid()
      modifies this
      ensures Valid()
      ensures t.NotFound? <==> forall id | id in old(rows) :: old(rows)[id].fileRecordId != Some(file)
      ensures t.NotFound? ==> rows == old(rows)
      ensures !t.NotFound? ==> exists id | id in old(rows) ::
                old(rows)[id].fileRecordId == Some(file)
                && rows == old(rows)[id := ContentChangedMark(old(rows)[id], d, now)]
    {
      var model := ModelByFileRecordId(file);
      if model.None? { return NotFound; }
      var next := if model.value.ragFileId.Some? then ReindexPending else Pending;
      t := ApplyTransition(model.value.id,
                           NO_CHANGE.(state := Set(next), attempts := Set(0), s3Key := Set(d.s3Key),
                                      contentSha256 := Set(d.contentSha256), contentType := Set(d.contentType),
                                      lastErrorCode := Set(None), nextAttemptAt := Set(None)), now);
    }

    method MarkRekey(file: FileId, key: string, now: Time) returns (t: Transition)
      requires Valid()
      modifies this
      ensures Valid()
      ensures t.NotFound? <==> forall id | id in old(rows) :: old(rows)[id].fileRecordId != Some(file)
      ensures t.NotFound? ==> rows == old(rows)
      ensures !t.NotFound? ==> exists id | id in old(rows) ::
                old(rows)[id].fileRecordId == Some(file)
                && rows == old(rows)[id := RekeyMark(old(rows)[id], key, now)]
    {
      var model := ModelByFileRecordId(file);
      if model.None? { return NotFound; }
      var id := model.value.id;
      if model.value.ragFileId.None? {
        if model.value.s3Key != key {
          rows := rows[id := rows[id].(s3Key := key, updatedAt := now)];
        }
        assert rows == old(rows)[id := RekeyMark(old(rows)[id], key, now)];
        return Updated(rows[id]);
      }
      t := ApplyTransition(id, NO_CHANGE.(state := Set(Pending), s3Key := Set(key), nextAttemptAt := Set(Some(now))),
                           now);
    }

    method MarkArchived(file: FileId, now: Time) returns (t: Transition)
      requires Valid()
      modifies this
      ensures Valid()
      ensures t.NotFound? <==> forall id | id in old(rows) :: old(rows)[id].fileRecordId != Some(file)
      ensures t.NotFound? ==> rows == old(rows)
      ensures !t.NotFound? ==> exists id | id in old(rows) ::
                old(rows)[id].fileRecordId == Some(file)
                && rows == old(rows)[id := ArchivedMark(old(rows)[id], now)]
    {
      var model := ModelByFileRecordId(file);
      if model.None? { return NotFound; }
      t := ApplyTransition(model.value.id, NO_CHANGE.(state := Set(Archived), nextAttemptAt := Set(None)), now);
    }

    /**
     * Every row of the given files becomes REMOVED, the others are left alone;
     * the answer has each once, in the order its file is first mentioned.
     */
    method MarkRemoved(files: seq<FileId>, now: Time) returns (removed: seq<LinkId>)
      requires Valid()
      modifies this
      ensures Valid()
      ensures RemovedRows(old(rows), rows, files, now)
      ensures forall id :: id in removed <==> id in old(rows) && OfFiles(old(rows)[id], files)
      ensures InMentionOrder(old(rows), files, removed)
    {
      hide InMentionOrder;
      removed := [];
      NoneMentioned(rows, files);
      for i := 0 to |files|
        invariant Valid()
        invariant RemovedRows(old(rows), rows, files[..i], now)
        invariant forall id :: id in removed <==> id in rows && OfFiles(rows[id], files[..i])
        invariant InMentionOrder(old(rows), files, removed)
      {
        OfOneMoreFile(files, i);
        var model := ModelByFileRecordId(files[i]);
        if model.Some? && files[i] !in files[..i] {
          RemoveOneMore(old(rows), rows, files, i, model.value.id, now);
          var t := ApplyTransition(model.value.id, NO_CHANGE.(state := Set(Removed), nextAttemptAt := Set(None)), now);
          OneMoreMentioned(old(rows), files, i, removed, model.value.id);
          removed := removed + [model.value.id];
        }
      }
      assert files[..|files|] == files;
    }

    /** The oldest due rows, or the ValueError of a limit below one. */
    method ClaimDue(limit: int, now: Time) returns (claimed: Option<seq<LinkId>>)
      requires Valid()
      ensures claimed.None? <==> limit < 1
      ensures claimed.Some? ==> FirstOf(rows, DueIds(rows, now), limit, claimed.value)
      ensures claimed.Some? ==>
                OldestFirst(rows, Claimable(rows, now), limit, claimed.value)
    {
      hide OldestFirst, FirstOf, DueIds, Claimable;
      if limit < 1 { return None; }
      DueAreRows(rows, now);
      var picked := Oldest(rows, DueIds(rows, now), limit);
      ClaimsAreOldest(rows, now, limit, picked);
      return Some(picked);
    }

    /** Requeue the `limit` oldest FAILED rows. */
    method RetryFailed(limit: int, now: Time) returns (picked: Option<seq<LinkId>>)
      requires Valid()
      modifies this
      ensures Valid()
      ensures picked.None? <==> limit < 1
      ensures picked.None? ==> rows == old(rows)
      ensures picked.Some? ==> FirstOf(old(rows), FailedIds(old(rows)), limit, picked.value)
      ensures picked.Some? ==> RetriedRows(old(rows), rows, picked.value, now)
      ensures picked.Some? ==> OldestFirst(old(rows), FailedIds(old(rows)), limit, picked.value)
    {
      hide OldestFirst;
      if limit < 1 { return None; }
      var ids := Oldest(rows, FailedIds(rows), limit);
      FirstOfIsOldest(rows, FailedIds(rows), limit, ids);
      for i := 0 to |ids|
        invariant Valid()
        invariant RetriedRows(old(rows), rows, ids[..i], now)
      {
        RetryOneMore(old(rows), rows, ids, i, now);
        var model := rows[ids[i]];
        var next := if model.ragFileId.Some? then Submitted else Pending;
        var t := ApplyTransition(model.id, NO_CHANGE.(state := Set(next), attempts := Set(0),
                                                      nextAttemptAt := Set(None), lastErrorCode := Set(None)), now);
      }
      assert ids[..|ids|] == ids;
      return Some(ids);
    }
  }
}
