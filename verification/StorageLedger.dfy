/** File records, the usage counters beside them, and what each transaction makes of both. */
module StorageLedger {
  import opened Common
  import IndexLinks

  type Section = IndexLinks.Section
  type UserId = nat
  type FileId = nat

  datatype FileStatus = PendingUpload | Committed | ArchivedFile | Deleted

  datatype Record = Record(owner: UserId, section: Section, size: nat, path: string, status: FileStatus) {
    predicate Active() {
      status == Committed || status == ArchivedFile
    }
  }

  datatype Usage = Usage(totalBytes: int, privateBytes: int, photosBytes: int, limitBytes: int, privateLimitBytes: int)

  type Records = map<FileId, Record>

  /** `nextId` is the id the next record gets; `defaultLimit` the limit of a usage row made on first use. */
  datatype State = State(records: Records, usages: map<UserId, Usage>, nextId: FileId, defaultLimit: int)

  /** What a counter counts. */
  datatype Counter = Total | Of(section: Section)

  function UsageOf(s: State, user: UserId): Usage {
    if user in s.usages then s.usages[user] else Usage(0, 0, 0, s.defaultLimit, 0)
  }

  function Counted(u: Usage, c: Counter): int
    requires c in COUNTERS
  {
    match c
    case Total => u.totalBytes
    case Of(section) => if section == IndexLinks.Private then u.privateBytes else u.photosBytes
  }

  const COUNTERS: set<Counter> := {Total, Of(IndexLinks.Private), Of(IndexLinks.Photos)}

  // ----- StorageQuota -----

  predicate IsUnlimited(limit: int) {
    limit <= 0
  }

  function AvailableBytes(used: int, limit: int): nat {
    if IsUnlimited(limit) then 0 else Max(0, limit - used)
  }

  predicate WouldExceed(used: int, limit: int, extra: int) {
    !IsUnlimited(limit) && used + extra > limit
  }

  // ----- QuotaRepository -----

  function Charged(u: Usage, n: int, section: Section): Usage {
    u.(totalBytes := u.totalBytes + n,
       privateBytes := if section == IndexLinks.Private then u.privateBytes + n else u.privateBytes,
       photosBytes := if section == IndexLinks.Photos then u.photosBytes + n else u.photosBytes)
  }

  /** `increment`, and `decrement` for a negative number. */
  function Charge(s: State, user: UserId, n: int, section: Section): State {
    s.(usages := s.usages[user := Charged(UsageOf(s, user), n, section)])
  }

  function WithoutPrivate(s: State, user: UserId): State {
    var u := UsageOf(s, user);
    s.(usages := s.usages[user := u.(totalBytes := u.totalBytes - u.privateBytes, privateBytes := 0)])
  }

  // ----- Sums -----

  predicate Counts(r: Record, user: UserId, c: Counter) {
    r.Active() && r.owner == user && (c.Total? || r.section == c.section)
  }

  function Share(r: Record, user: UserId, c: Counter): nat {
    if Counts(r, user, c) then r.size else 0
  }

  /** The bytes of a user's active records, over some ids. */
  ghost function BytesOver(records: Records, ids: set<FileId>, user: UserId, c: Counter): nat
    requires ids <= records.Keys
    decreases |ids|
  {
    if ids == {} then 0
    else
      var id :| id in ids;
      Share(records[id], user, c) + BytesOver(records, ids - {id}, user, c)
  }

  ghost function Bytes(records: Records, user: UserId, c: Counter): nat {
    BytesOver(records, records.Keys, user, c)
  }

  lemma {:induction false} BytesRemove(records: Records, ids: set<FileId>, id: FileId, user: UserId, c: Counter)
    requires ids <= records.Keys && id in ids
    ensures BytesOver(records, ids, user, c) == Share(records[id], user, c) + BytesOver(records, ids - {id}, user, c)
    decreases |ids|
  {
    var first :| first in ids && BytesOver(records, ids, user, c) ==
                                 Share(records[first], user, c) + BytesOver(records, ids - {first}, user, c);
    if first != id {
      BytesRemove(records, ids - {first}, id, user, c);
      BytesRemove(records, ids - {id}, first, user, c);
      assert ids - {first} - {id} == ids - {id} - {first};
    }
  }

  lemma {:induction false} BytesSame(records: Records, records': Records, ids: set<FileId>, user: UserId, c: Counter)
    requires ids <= records.Keys && ids <= records'.Keys
    requires forall id | id in ids :: Share(records[id], user, c) == Share(records'[id], user, c)
    ensures BytesOver(records, ids, user, c) == BytesOver(records', ids, user, c)
    decreases |ids|
  {
    if ids != {} {
      var id :| id in ids;
      BytesRemove(records, ids, id, user, c);
      BytesRemove(records', ids, id, user, c);
      BytesSame(records, records', ids - {id}, user, c);
    }
  }

  function ShareAt(records: Records, id: FileId, user: UserId, c: Counter): nat {
    if id in records then Share(records[id], user, c) else 0
  }

  /** Writing one record changes each sum by that record's share alone. */
  lemma BytesOfPut(records: Records, id: FileId, r: Record, user: UserId, c: Counter)
    ensures Bytes(records[id := r], user, c) ==
            Bytes(records, user, c) - ShareAt(records, id, user, c) + Share(r, user, c)
  {
    var after := records[id := r];
    var others := records.Keys - {id};
    BytesRemove(after, after.Keys, id, user, c);
    assert after.Keys - {id} == others;
    if id in records {
      BytesRemove(records, records.Keys, id, user, c);
    } else {
      assert others == records.Keys;
    }
    BytesSame(records, after, others, user, c);
  }

  // ----- The ledger -----

  /** How far a counter is below the sum of the records it stands for. */
  ghost function Gap(s: State, user: UserId, c: Counter): int
    requires c in COUNTERS
  {
    Bytes(s.records, user, c) - Counted(UsageOf(s, user), c)
  }

  /** Every counter of every user equals its sum. */
  ghost predicate Ledger(s: State) {
    && (forall id | id in s.records :: id < s.nextId)
    && forall user, c | c in COUNTERS :: Gap(s, user, c) == 0
  }

  /** Ids handed out so far. */
  predicate Issued(s: State) {
    forall id | id in s.records :: id < s.nextId
  }

  function Put(s: State, id: FileId, r: Record): State {
    s.(records := s.records[id := r], nextId := Max(s.nextId, id + 1))
  }

  function Part(n: int, section: Section, c: Counter): int {
    if c.Total? || c.section == section then n else 0
  }

  lemma GapOfCharge(s: State, payer: UserId, n: int, section: Section, user: UserId, c: Counter)
    requires c in COUNTERS
    ensures Gap(Charge(s, payer, n, section), user, c) ==
            Gap(s, user, c) - if user == payer then Part(n, section, c) else 0
  {
  }

  lemma GapOfPut(s: State, id: FileId, r: Record, user: UserId, c: Counter)
    requires c in COUNTERS
    ensures Gap(Put(s, id, r), user, c) == Gap(s, user, c) - ShareAt(s.records, id, user, c) + Share(r, user, c)
  {
    BytesOfPut(s.records, id, r, user, c);
  }

  lemma SameGap(s: State, s': State, user: UserId, c: Counter)
    requires c in COUNTERS && s.records == s'.records && UsageOf(s, user) == UsageOf(s', user)
    ensures Gap(s, user, c) == Gap(s', user, c)
  {
  }

  // ----- Transactions that finish -----

  /** A committed record, charged to its owner. */
  function Uploaded(s: State, user: UserId, section: Section, size: nat, path: string): State {
    Charge(Put(s, s.nextId, Record(user, section, size, path, Committed)), user, size, section)
  }

  /** The record's new size, the difference charged to whoever overwrote it. */
  function Overwritten(s: State, actor: UserId, id: FileId, size: nat): State
    requires id in s.records
  {
    var r := s.records[id];
    var resized := Put(s, id, r.(size := size));
    if size == r.size then resized else Charge(resized, actor, size - r.size, r.section)
  }

  function Removed(s: State, id: FileId): State
    requires id in s.records
  {
    Put(s, id, s.records[id].(status := Deleted))
  }

  /** The record deleted, its size given back to its owner. */
  function DeletedFile(s: State, id: FileId): State
    requires id in s.records
  {
    var r := s.records[id];
    Charge(Removed(s, id), r.owner, 0 - r.size, r.section)
  }

  lemma UploadKeepsLedger(s: State, user: UserId, section: Section, size: nat, path: string)
    requires Ledger(s)
    ensures Ledger(Uploaded(s, user, section, size, path))
  {
    var r := Record(user, section, size, path, Committed);
    var put := Put(s, s.nextId, r);
    forall u, c | c in COUNTERS ensures Gap(Charge(put, user, size, section), u, c) == 0 {
      GapOfPut(s, s.nextId, r, u, c);
      GapOfCharge(put, user, size, section, u, c);
    }
  }

  /** An overwrite keeps the ledger exactly when the owner did it or the size did not change. */
  lemma OverwriteKeepsLedger(s: State, actor: UserId, id: FileId, size: nat)
    requires Ledger(s) && id in s.records && s.records[id].Active()
    ensures Ledger(Overwritten(s, actor, id, size)) <==> actor == s.records[id].owner || size == s.records[id].size
  {
    var r := s.records[id];
    var resized := Put(s, id, r.(size := size));
    forall u, c | c in COUNTERS
      ensures Gap(Overwritten(s, actor, id, size), u, c) ==
              (if u == r.owner then Part(size - r.size, r.section, c) else 0)
                - (if u == actor then Part(size - r.size, r.section, c) else 0)
    {
      GapOfPut(s, id, r.(size := size), u, c);
      GapOfCharge(resized, actor, size - r.size, r.section, u, c);
    }
    if actor != r.owner && size != r.size {
      assert Total in COUNTERS;
      assert Gap(Overwritten(s, actor, id, size), actor, Total) != 0;
    }
  }

  lemma DeleteKeepsLedger(s: State, id: FileId)
    requires Ledger(s) && id in s.records && s.records[id].Active()
    ensures Ledger(DeletedFile(s, id))
  {
    var r := s.records[id];
    forall u, c | c in COUNTERS ensures Gap(DeletedFile(s, id), u, c) == 0 {
      GapOfPut(s, id, r.(status := Deleted), u, c);
      GapOfCharge(Removed(s, id), r.owner, 0 - r.size, r.section, u, c);
    }
  }

  /** Archiving moves no bytes. */
  lemma ArchiveKeepsLedger(s: State, id: FileId)
    requires Ledger(s) && id in s.records && s.records[id].status == Committed
    ensures Ledger(Put(s, id, s.records[id].(status := ArchivedFile)))
  {
    forall u, c | c in COUNTERS ensures Gap(Put(s, id, s.records[id].(status := ArchivedFile)), u, c) == 0 {
      GapOfPut(s, id, s.records[id].(status := ArchivedFile), u, c);
    }
  }

  // ----- Many records at once -----

  /** Mark each id deleted, in turn. */
  function RemoveAll(s: State, ids: seq<FileId>): State
    requires forall id | id in ids :: id in s.records
    decreases |ids|
  {
    if ids == [] then s else RemoveAll(Removed(s, ids[0]), ids[1..])
  }

  predicate Distinct(ids: seq<FileId>) {
    forall i, j | 0 <= i < j < |ids| :: ids[i] != ids[j]
  }

  function SizeSum(records: Records, ids: seq<FileId>): nat
    requires forall id | id in ids :: id in records
  {
    if ids == [] then 0 else records[ids[0]].size + SizeSum(records, ids[1..])
  }

  /** Active records of one user and section, each once. */
  predicate OwnedActive(records: Records, ids: seq<FileId>, user: UserId, section: Section) {
    && Distinct(ids)
    && forall id | id in ids ::
      id in records && records[id].Active() && records[id].owner == user && records[id].section == section
  }

  lemma {:induction false} GapOfRemoveAll(s: State, ids: seq<FileId>, owner: UserId, section: Section, user: UserId,
                                          c: Counter)
    requires OwnedActive(s.records, ids, owner, section) && c in COUNTERS
    ensures Gap(RemoveAll(s, ids), user, c) ==
            Gap(s, user, c) - if user == owner then Part(SizeSum(s.records, ids), section, c) else 0
    ensures RemoveAll(s, ids).usages == s.usages
    ensures Issued(s) ==> Issued(RemoveAll(s, ids))
    decreases |ids|
  {
    if ids != [] {
      var next := Removed(s, ids[0]);
      assert forall id | id in ids[1..] :: id in ids && id != ids[0];
      GapOfPut(s, ids[0], s.records[ids[0]].(status := Deleted), user, c);
      GapOfRemoveAll(next, ids[1..], owner, section, user, c);
      SizeSumSame(s.records, next.records, ids[1..]);
    }
  }

  lemma {:induction false} SizeSumSame(records: Records, records': Records, ids: seq<FileId>)
    requires forall id | id in ids :: id in records && id in records' && records[id].size == records'[id].size
    ensures SizeSum(records, ids) == SizeSum(records', ids)
  {
    if ids != [] {
      SizeSumSame(records, records', ids[1..]);
    }
  }

  /** A directory's records deleted and their sizes given back at once; nothing is charged for none. */
  function DeletedTree(s: State, user: UserId, section: Section, ids: seq<FileId>): State
    requires forall id | id in ids :: id in s.records
  {
    var released := SizeSum(s.records, ids);
    if released == 0 then RemoveAll(s, ids) else Charge(RemoveAll(s, ids), user, 0 - released, section)
  }

  lemma DeleteTreeKeepsLedger(s: State, user: UserId, section: Section, ids: seq<FileId>)
    requires Ledger(s) && OwnedActive(s.records, ids, user, section)
    ensures Ledger(DeletedTree(s, user, section, ids))
  {
    var released: int := SizeSum(s.records, ids);
    GapOfRemoveAll(s, ids, user, section, user, Total);
    forall u, c | c in COUNTERS ensures Gap(DeletedTree(s, user, section, ids), u, c) == 0 {
      GapOfRemoveAll(s, ids, user, section, u, c);
      GapOfCharge(RemoveAll(s, ids), user, 0 - released, section, u, c);
    }
  }

  /** The private section emptied: committed records deleted, the counter cleared. */
  function PrivateReset(s: State, user: UserId, ids: seq<FileId>): State
    requires forall id | id in ids :: id in s.records
  {
    WithoutPrivate(RemoveAll(s, ids), user)
  }

  /** The ids `delete_all_by_user_section` marks: COMMITTED ones only. */
  predicate CommittedOf(records: Records, ids: seq<FileId>, user: UserId, section: Section) {
    && OwnedActive(records, ids, user, section)
    && forall id | id in records ::
         id in ids <==> records[id].status == Committed && records[id].owner == user && records[id].section == section
  }

  lemma {:induction false} RemoveAllRecords(s: State, ids: seq<FileId>, id: FileId)
    requires (forall i | i in ids :: i in s.records) && id in s.records
    ensures var after := RemoveAll(s, ids);
            && after.records.Keys == s.records.Keys
            && after.records[id] == if id in ids then s.records[id].(status := Deleted) else s.records[id]
    decreases |ids|
  {
    if ids != [] {
      assert ids == [ids[0]] + ids[1..];
      RemoveAllRecords(Removed(s, ids[0]), ids[1..], id);
    }
  }

  lemma {:induction false} NothingCounted(records: Records, ids: set<FileId>, user: UserId, c: Counter)
    requires ids <= records.Keys
    ensures BytesOver(records, ids, user, c) == 0 <==> forall id | id in ids :: Share(records[id], user, c) == 0
    decreases |ids|
  {
    if ids != {} {
      var id :| id in ids && BytesOver(records, ids, user, c) ==
                             Share(records[id], user, c) + BytesOver(records, ids - {id}, user, c);
      NothingCounted(records, ids - {id}, user, c);
      assert ids == (ids - {id}) + {id};
    }
  }

  /** No archived private record of the user holds bytes. */
  predicate NoArchivedPrivate(records: Records, user: UserId) {
    forall id | id in records ::
      records[id].status == ArchivedFile && records[id].owner == user && records[id].section == IndexLinks.Private ==>
        records[id].size == 0
  }

  /** What the reset leaves counted are the archived private records. */
  lemma LeftAfterReset(s: State, user: UserId, ids: seq<FileId>)
    requires CommittedOf(s.records, ids, user, IndexLinks.Private)
    ensures Bytes(RemoveAll(s, ids).records, user, Of(IndexLinks.Private)) == 0 <==> NoArchivedPrivate(s.records, user)
  {
    var after := RemoveAll(s, ids).records;
    var c := Of(IndexLinks.Private);
    forall id | id in s.records
      ensures after.Keys == s.records.Keys
      ensures after[id] == if id in ids then s.records[id].(status := Deleted) else s.records[id]
    {
      RemoveAllRecords(s, ids, id);
    }
    if s.records != map[] {
      var id :| id in s.records;
      assert after.Keys == s.records.Keys;
    }
    NothingCounted(after, after.Keys, user, c);
  }

  /**
   * A private reset keeps the ledger exactly when none of the user's private
   * bytes are archived: the counter is cleared, but only COMMITTED records go.
   */
  lemma ResetKeepsLedger(s: State, user: UserId, ids: seq<FileId>)
    requires Ledger(s) && CommittedOf(s.records, ids, user, IndexLinks.Private)
    ensures Ledger(PrivateReset(s, user, ids)) <==> NoArchivedPrivate(s.records, user)
  {
    var removed := RemoveAll(s, ids);
    var left := Bytes(removed.records, user, Of(IndexLinks.Private));
    LeftAfterReset(s, user, ids);
    assert Of(IndexLinks.Private) in COUNTERS && Gap(s, user, Of(IndexLinks.Private)) == 0;
    GapOfRemoveAll(s, ids, user, IndexLinks.Private, user, Of(IndexLinks.Private));
    GapOfRemoveAll(s, ids, user, IndexLinks.Private, user, Total);
    forall u, c | c in COUNTERS
      ensures Gap(PrivateReset(s, user, ids), u, c) == if u == user then Part(left, IndexLinks.Private, c) else 0
    {
      GapOfRemoveAll(s, ids, user, IndexLinks.Private, u, c);
      assert Gap(s, u, c) == 0;
    }
    if left != 0 {
      assert Gap(PrivateReset(s, user, ids), user, Of(IndexLinks.Private)) != 0;
    }
  }

  // ----- Zip extraction -----

  /**
   * How the extraction of one file entry goes. The loop swallows every
   * exception, but a database statement that raises aborts the session's
   * transaction, and nothing the request wrote outlives it.
   */
  datatype Fate =
    | Extracted         // committed, charged and queued
    | QueueingFails     // committed and charged, but counted as an error
    | FailsBeforeCommit // storage raised: the record stays PENDING
    | RecordVanishes    // the record is gone when it should be committed
    | StatementFails    // a database statement raised

  datatype ZipEntry = ZipEntry(name: string, size: nat, path: string, isDir: bool, fate: Fate)

  predicate IsCharged(fate: Fate) {
    fate == Extracted || fate == QueueingFails
  }

  function ExtractedEntry(s: State, user: UserId, section: Section, e: ZipEntry): State {
    if e.isDir then s
    else
      var record := Record(user, section, e.size, e.path, Committed);
      match e.fate
      case Extracted => Uploaded(s, user, section, e.size, e.path)
      case QueueingFails => Uploaded(s, user, section, e.size, e.path)
      case FailsBeforeCommit => Put(s, s.nextId, record.(status := PendingUpload))
      case RecordVanishes => s.(nextId := s.nextId + 1)
      case StatementFails => s
  }

  function ExtractedAll(s: State, user: UserId, section: Section, entries: seq<ZipEntry>): State {
    if entries == [] then s
    else ExtractedEntry(ExtractedAll(s, user, section, entries[..|entries| - 1]), user, section, entries[|entries| - 1])
  }

  predicate Aborts(entries: seq<ZipEntry>) {
    exists e | e in entries :: !e.isDir && e.fate == StatementFails
  }

  /** What the request leaves in the database. */
  function Extraction(s: State, user: UserId, section: Section, entries: seq<ZipEntry>): State {
    if Aborts(entries) then s else ExtractedAll(s, user, section, entries)
  }

  function ExtractedBytes(entries: seq<ZipEntry>): nat {
    if entries == [] then 0
    else
      var e := entries[|entries| - 1];
      ExtractedBytes(entries[..|entries| - 1]) + if !e.isDir && IsCharged(e.fate) then e.size else 0
  }

  /** What the loop reports as written. */
  function ReportedBytes(entries: seq<ZipEntry>): nat {
    if entries == [] then 0
    else
      var e := entries[|entries| - 1];
      ReportedBytes(entries[..|entries| - 1]) + if !e.isDir && e.fate == Extracted then e.size else 0
  }

  function ReportedFiles(entries: seq<ZipEntry>): nat {
    if entries == [] then 0
    else
      var e := entries[|entries| - 1];
      ReportedFiles(entries[..|entries| - 1]) + if !e.isDir && e.fate == Extracted then 1 else 0
  }

  function UncompressedSize(entries: seq<ZipEntry>): nat {
    if entries == [] then 0 else UncompressedSize(entries[..|entries| - 1]) + entries[|entries| - 1].size
  }

  /** What is reported is what was charged, except for files whose queueing failed. */
  lemma {:induction false} ReportedAreCharged(entries: seq<ZipEntry>)
    ensures ReportedBytes(entries) <= ExtractedBytes(entries)
    ensures ReportedBytes(entries) == ExtractedBytes(entries) <==>
            forall e | e in entries && !e.isDir && e.fate == QueueingFails :: e.size == 0
    ensures ReportedFiles(entries) <= |entries|
    ensures ReportedFiles(entries) == |entries| <==> forall e | e in entries :: !e.isDir && e.fate == Extracted
    decreases |entries|
  {
    if entries != [] {
      var init, last := entries[..|entries| - 1], entries[|entries| - 1];
      ReportedAreCharged(init);
      assert entries == init + [last];
    }
  }

  lemma {:induction false} GapOfExtraction(s: State, user: UserId, section: Section, entries: seq<ZipEntry>, u: UserId,
                                           c: Counter)
    requires Issued(s) && c in COUNTERS
    ensures var after := ExtractedAll(s, user, section, entries);
            Issued(after) && Gap(after, u, c) == Gap(s, u, c)
    decreases |entries|
  {
    if entries != [] {
      var e := entries[|entries| - 1];
      GapOfExtraction(s, user, section, entries[..|entries| - 1], u, c);
      var before := ExtractedAll(s, user, section, entries[..|entries| - 1]);
      GapOfEntry(before, user, section, e, u, c);
    }
  }

  lemma GapOfEntry(s: State, user: UserId, section: Section, e: ZipEntry, u: UserId, c: Counter)
    requires Issued(s) && c in COUNTERS
    ensures var after := ExtractedEntry(s, user, section, e);
            Issued(after) && Gap(after, u, c) == Gap(s, u, c)
  {
    hide Gap;
    var record := Record(user, section, e.size, e.path, Committed);
    if !e.isDir {
      match e.fate
      case Extracted =>
        GapOfPut(s, s.nextId, record, u, c);
        GapOfCharge(Put(s, s.nextId, record), user, e.size, section, u, c);
      case QueueingFails =>
        GapOfPut(s, s.nextId, record, u, c);
        GapOfCharge(Put(s, s.nextId, record), user, e.size, section, u, c);
      case FailsBeforeCommit =>
        GapOfPut(s, s.nextId, record.(status := PendingUpload), u, c);
      case RecordVanishes =>
        SameGap(s, s.(nextId := s.nextId + 1), u, c);
      case StatementFails =>
    }
  }

  /** However each entry goes, what an extraction leaves in the database keeps the ledger. */
  lemma ZipKeepsLedger(s: State, user: UserId, section: Section, entries: seq<ZipEntry>)
    requires Ledger(s)
    ensures Ledger(Extraction(s, user, section, entries))
  {
    var after := ExtractedAll(s, user, section, entries);
    GapOfExtraction(s, user, section, entries, user, Total);
    forall u, c | c in COUNTERS ensures Gap(after, u, c) == 0 {
      GapOfExtraction(s, user, section, entries, u, c);
      assert Gap(s, u, c) == 0;
    }
  }

  // ----- Generated runs -----

  datatype NewFile = NewFile(size: nat, path: string)

  function FilesSize(files: seq<NewFile>): nat {
    if files == [] then 0 else FilesSize(files[..|files| - 1]) + files[|files| - 1].size
  }

  /** The files of a generated run, uploaded one after the other. */
  function StoredFiles(s: State, owner: UserId, files: seq<NewFile>): State {
    if files == [] then s
    else
      var f := files[|files| - 1];
      Uploaded(StoredFiles(s, owner, files[..|files| - 1]), owner, IndexLinks.Generated, f.size, f.path)
  }

  lemma {:induction false} StoredFilesKeep(s: State, owner: UserId, files: seq<NewFile>)
    requires Ledger(s)
    ensures Ledger(StoredFiles(s, owner, files))
    decreases |files|
  {
    hide Ledger;
    if files != [] {
      var f := files[|files| - 1];
      StoredFilesKeep(s, owner, files[..|files| - 1]);
      UploadKeepsLedger(StoredFiles(s, owner, files[..|files| - 1]), owner, IndexLinks.Generated, f.size, f.path);
    }
  }

  // ----- Renames -----

  /** New paths for some records. */
  function Renamed(s: State, paths: map<FileId, string>): State {
    s.(records := map id | id in s.records ::
         if id in paths then s.records[id].(path := paths[id]) else s.records[id])
  }

  /** Renaming moves no bytes. */
  lemma RenameKeepsLedger(s: State, paths: map<FileId, string>)
    requires Ledger(s)
    ensures Ledger(Renamed(s, paths))
  {
    var after := Renamed(s, paths);
    forall u, c | c in COUNTERS ensures Gap(after, u, c) == 0 {
      assert after.records.Keys == s.records.Keys;
      BytesSame(s.records, after.records, s.records.Keys, u, c);
      assert Gap(s, u, c) == 0;
    }
  }

  // ----- Runs -----

  /** A request's transaction, by what it commits; one that raised is rolled back. */
  datatype Transaction =
    | Upload(user: UserId, section: Section, size: nat, path: string)
    | Overwrite(actor: UserId, id: FileId, newSize: nat)
    | DeleteOne(id: FileId)
    | DeleteTree(user: UserId, section: Section, ids: seq<FileId>)
    | ResetPrivate(user: UserId, ids: seq<FileId>)
    | Extract(user: UserId, section: Section, entries: seq<ZipEntry>)
    | StoreRun(owner: UserId, files: seq<NewFile>)
    | Rename(paths: map<FileId, string>)
    | Archive(id: FileId)
    | RolledBack

  predicate Applicable(s: State, t: Transaction) {
    match t
    case Overwrite(_, id, _) => id in s.records && s.records[id].Active()
    case DeleteOne(id) => id in s.records && s.records[id].Active()
    case DeleteTree(user, section, ids) => OwnedActive(s.records, ids, user, section)
    case ResetPrivate(user, ids) => CommittedOf(s.records, ids, user, IndexLinks.Private)
    case Rename(paths) => forall id | id in paths :: id in s.records && s.records[id].status == Committed
    case Archive(id) => id in s.records && s.records[id].status == Committed
    case _ => true
  }

  function Apply(s: State, t: Transaction): State
    requires Applicable(s, t)
  {
    match t
    case Upload(user, section, size, path) => Uploaded(s, user, section, size, path)
    case Overwrite(actor, id, size) => Overwritten(s, actor, id, size)
    case DeleteOne(id) => DeletedFile(s, id)
    case DeleteTree(user, section, ids) => DeletedTree(s, user, section, ids)
    case ResetPrivate(user, ids) => PrivateReset(s, user, ids)
    case Extract(user, section, entries) => Extraction(s, user, section, entries)
    case StoreRun(owner, files) => StoredFiles(s, owner, files)
    case Rename(paths) => Renamed(s, paths)
    case Archive(id) => Put(s, id, s.records[id].(status := ArchivedFile))
    case RolledBack => s
  }

  /** What a caller can check before the transaction. */
  predicate KeepsBooks(s: State, t: Transaction)
    requires Applicable(s, t)
  {
    match t
    case Overwrite(actor, id, size) => actor == s.records[id].owner || size == s.records[id].size
    case ResetPrivate(user, _) => NoArchivedPrivate(s.records, user)
    case _ => true
  }

  /** Each transaction keeps every counter equal to its sum exactly when its condition holds. */
  lemma TransactionKeepsLedger(s: State, t: Transaction)
    requires Ledger(s) && Applicable(s, t)
    ensures Ledger(Apply(s, t)) <==> KeepsBooks(s, t)
  {
    hide Ledger, Uploaded, Overwritten, DeletedFile, DeletedTree, PrivateReset, Extraction, Renamed;
    match t
    case Upload(user, section, size, path) => UploadKeepsLedger(s, user, section, size, path);
    case Overwrite(actor, id, size) => OverwriteKeepsLedger(s, actor, id, size);
    case DeleteOne(id) => DeleteKeepsLedger(s, id);
    case DeleteTree(user, section, ids) => DeleteTreeKeepsLedger(s, user, section, ids);
    case ResetPrivate(user, ids) => ResetKeepsLedger(s, user, ids);
    case Extract(user, section, entries) => ZipKeepsLedger(s, user, section, entries);
    case StoreRun(owner, files) => StoredFilesKeep(s, owner, files);
    case Rename(paths) => RenameKeepsLedger(s, paths);
    case Archive(id) => ArchiveKeepsLedger(s, id);
    case RolledBack =>
  }

  function Final(s: State, run: seq<Transaction>): State
    requires Runs(s, run)
    decreases |run|
  {
    if run == [] then s else Final(Apply(s, run[0]), run[1..])
  }

  predicate Runs(s: State, run: seq<Transaction>)
    decreases |run|
  {
    run != [] ==> Applicable(s, run[0]) && Runs(Apply(s, run[0]), run[1..])
  }

  /** Every transaction of the run meets its own condition when its turn comes. */
  predicate Honest(s: State, run: seq<Transaction>)
    requires Runs(s, run)
    decreases |run|
  {
    run != [] ==> KeepsBooks(s, run[0]) && Honest(Apply(s, run[0]), run[1..])
  }

  lemma {:induction false} RunKeepsLedger(s: State, run: seq<Transaction>)
    requires Ledger(s) && Runs(s, run) && Honest(s, run)
    ensures Ledger(Final(s, run))
    decreases |run|
  {
    hide Ledger, KeepsBooks, Applicable, Apply;
    if run != [] {
      TransactionKeepsLedger(s, run[0]);
      RunKeepsLedger(Apply(s, run[0]), run[1..]);
    }
  }
}
