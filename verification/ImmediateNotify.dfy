/** The notification sent right after a request commits, for the rows it queued. */
module ImmediateNotify {
  import opened Common
  import opened IndexLinks
  import opened LinkRepository
  import opened SyncSpec
  import opened SyncJob
  import opened RowInvariant
  import opened StepOutcome
  import opened StepShape

  /** First occurrences, in order. */
  method Deduplicate(files: seq<FileId>) returns (ordered: seq<FileId>)
    ensures forall f :: f in ordered <==> f in files
    ensures forall i, j | 0 <= i < j < |ordered| ::
              ordered[i] != ordered[j] && FirstBefore(files, ordered[i], ordered[j])
  {
    ordered := [];
    for i := 0 to |files|
      invariant forall f :: f in ordered <==> f in files[..i]
      invariant forall k, j | 0 <= k < j < |ordered| ::
                  ordered[k] != ordered[j] && FirstBefore(files, ordered[k], ordered[j])
    {
      assert files[..i + 1] == files[..i] + [files[i]];
      if files[i] !in ordered {
        forall a | a in ordered ensures FirstBefore(files, a, files[i]) {
          NewcomerIsLater(files, i, a);
        }
        ordered := ordered + [files[i]];
      }
    }
    assert files[..|files|] == files;
  }

  /** The row after a notification that covers the given files. */
  ghost function NotifiedRow(cfg: Config, row: Link, files: seq<FileId>, now: Time, world: LinkId -> Answers): Link {
    if OfFiles(row, files) && ShouldNotify(row) then Process(cfg, row, now, world(row.id)).row else row
  }

  /**
   * A notification takes its one step on the FILES and PHOTOS rows of its files
   * that are new registrations or removals, and asks for that alone.
   */
  lemma WhoIsNotified(cfg: Config, row: Link, files: seq<FileId>, now: Time, world: LinkId -> Answers)
    ensures var a := world(row.id);
            var s := Process(cfg, row, now, a);
            NotifiedRow(cfg, row, files, now, world) ==
            if row.fileRecordId.Some? && row.fileRecordId.value in files && row.section in {Files, Photos}
               && (row.state == Removed || (row.state == Pending && row.ragFileId.None?)) then s.row else row
    ensures ShouldNotify(row) ==>
              var calls := Process(cfg, row, now, world(row.id)).calls;
              && |calls| <= 1
              && forall c | c in calls :: if row.state == Removed then c.DeleteVectors? && row.ragFileId == Some(c.id)
                                          else c.Register?
  {
    hide Process;
    CallsExactly(cfg, row, now, world(row.id));
  }

  ghost predicate NotifiedRows(cfg: Config, before: map<LinkId, Link>, after: map<LinkId, Link>, files: seq<FileId>,
                               now: Time, world: LinkId -> Answers)
  {
    && after.Keys == before.Keys
    && forall id | id in before :: after[id] == NotifiedRow(cfg, before[id], files, now, world)
  }

  lemma OneMoreFile(cfg: Config, before: map<LinkId, Link>, mid: map<LinkId, Link>, after: map<LinkId, Link>,
                    files: seq<FileId>, file: FileId, now: Time, world: LinkId -> Answers)
    requires NotifiedRows(cfg, before, mid, files, now, world) && file !in files
    requires after.Keys == mid.Keys
    requires forall id | id in mid :: after[id] ==
               if before[id].fileRecordId == Some(file) then NotifiedRow(cfg, before[id], [file], now, world)
               else mid[id]
    ensures NotifiedRows(cfg, before, after, files + [file], now, world)
  {
  }

  /**
   * Exactly the rows of the given files that are new registrations or removals
   * take one step, however often a file is listed; nothing happens when the
   * index is switched off.
   */
  method NotifyIndexLinks(job: IndexSyncJob, files: seq<FileId>, enabled: bool, now: Time, world: LinkId -> Answers)
    requires job.links.Valid()
    modifies job.links, job`calls
    ensures job.links.Valid()
    ensures NotifiedRows(job.cfg, old(job.links.rows), job.links.rows, if enabled then files else [], now, world)
  {
    if !enabled { return; }
    var ordered := Deduplicate(files);
    for i := 0 to |ordered|
      invariant job.links.Valid()
      invariant NotifiedRows(job.cfg, old(job.links.rows), job.links.rows, ordered[..i], now, world)
    {
      assert ordered[..i + 1] == ordered[..i] + [ordered[i]];
      ghost var mid := job.links.rows;
      NotifyOne(job, ordered[i], now, world);
      FilesKept(job.cfg, old(job.links.rows), mid, ordered[..i], ordered[i], now, world);
      OneMoreFile(job.cfg, old(job.links.rows), mid, job.links.rows, ordered[..i], ordered[i], now, world);
    }
    assert ordered[..|ordered|] == ordered;
  }

  /** No step changes which file a row belongs to, and the rows of other files are as they were. */
  lemma FilesKept(cfg: Config, before: map<LinkId, Link>, mid: map<LinkId, Link>, files: seq<FileId>, file: FileId,
                  now: Time, world: LinkId -> Answers)
    requires NotifiedRows(cfg, before, mid, files, now, world) && file !in files
    ensures forall id | id in before :: mid[id].fileRecordId == before[id].fileRecordId && mid[id].id == before[id].id
    ensures forall id | id in before && before[id].fileRecordId == Some(file) :: mid[id] == before[id]
  {
    forall id | id in before ensures mid[id].fileRecordId == before[id].fileRecordId && mid[id].id == before[id].id {
      ProcessFixed(cfg, before[id], now, world(before[id].id));
    }
  }

  method NotifyOne(job: IndexSyncJob, file: FileId, now: Time, world: LinkId -> Answers)
    requires job.links.Valid()
    modifies job.links, job`calls
    ensures job.links.Valid() && job.links.rows.Keys == old(job.links.rows).Keys
    ensures forall id | id in job.links.rows :: job.links.rows[id] ==
              if old(job.links.rows)[id].fileRecordId == Some(file)
              then NotifiedRow(job.cfg, old(job.links.rows)[id], [file], now, world) else old(job.links.rows)[id]
  {
    var link := job.links.ModelByFileRecordId(file);
    if link.None? || !ShouldNotify(link.value) { return; }
    var _ := job.ProcessLink(link.value, now, world(link.value.id));
  }
}
