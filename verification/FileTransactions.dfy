/** The request transactions over the file records and the usage counters, step by step. */
module FileTransactions {
  import opened Common
  import opened DirectoryRename
  import opened LikePattern
  import opened StorageLedger
  import opened StorageLimit
  import opened StoragePaths
  import IndexLinks

  datatype Outcome = Done | Raised | QuotaExceeded

  datatype Found = One(id: FileId) | NoRecord | Several

  /** What stands at the directory path of a recursive delete. */
  datatype Standing = SectionRoot | NothingThere | PlainFile | Directory

  /** An absolute entry name, or one with a parent segment. */
  predicate Escapes(name: string) {
    var raw := Slashed(name);
    (raw != "" && raw[0] == SLASH) || ".." in Split(raw)
  }

  /** Either slash at the start, or a parent segment, whichever slashes are around it. */
  lemma EscapesExactly(name: string)
    ensures Escapes(name) <==> (name != "" && name[0] in {'/', '\\'}) || StandsIn(Slashed(name), "..")
  {
    hide Split, Slashed, StandsIn;
    SegmentsOf(Slashed(name), "..");
    if name != "" { SlashedAt(name, 0); }
  }

  lemma SlashedAt(s: string, i: nat)
    requires i < |s|
    ensures Slashed(s)[i] == if s[i] == '\\' then '/' else s[i]
  {
  }

  predicate EscapingArchive(entries: seq<ZipEntry>) {
    exists e | e in entries :: Escapes(e.name)
  }

  /** The path of a file with another name in the same directory. */
  function Sibling(path: string, name: string): string {
    var parts := Split(path);
    if parts == [] then name else Join(parts[..|parts| - 1] + [name])
  }

  /** The segments of a path without the last. */
  function Parents(path: string): seq<string> {
    var parts := Split(path);
    parts[..|parts| - 1]
  }

  predicate PlainPath(path: string) {
    forall p | p in Split(path) :: Plain(p)
  }

  /** Neither the first segment begins nor the name ends with a blank. */
  predicate BlankFree(path: string, name: string)
    requires PlainPath(path) && Plain(name)
  {
    var first := (Parents(path) + [name])[0];
    assert Parents(path) != [] ==> first in Split(path);
    !IsBlank(first[0]) && !IsBlank(name[|name| - 1])
  }

  /**
   * A file at a plain path, renamed to a plain name, stays in its directory with
   * the name as the last segment, exactly when no blank comes to either end of
   * the new path.
   */
  lemma SiblingStaysBeside(path: string, name: string)
    requires PlainPath(path) && Plain(name)
    ensures var key := SafeLogicalKey(Sibling(path, name));
            key.Some? && Split(key.value) == Parents(path) + [name] <==> BlankFree(path, name)
  {
    hide SafeLogicalKey, Split, Join, Strip, IsBlank;
    var parts := Parents(path) + [name];
    assert forall p | p in parts :: p in Split(path) || p == name;
    JoinLength(parts);
    SplitJoin(parts);
    var key := SafeLogicalKey(Join(parts));
    if BlankFree(path, name) {
      PlainJoinIsSafe(parts);
    } else if key.Some? && Split(key.value) == parts {
      JoinSplit(key.value);
      NormalOnlyWhenTrim(Join(parts));
    }
  }

  /** So files of different directories never get one path. */
  lemma SiblingsStayApart(path: string, name: string, path': string, name': string)
    requires PlainPath(path) && Plain(name) && BlankFree(path, name)
    requires PlainPath(path') && Plain(name') && BlankFree(path', name')
    ensures SafeLogicalKey(Sibling(path, name)) == SafeLogicalKey(Sibling(path', name')) <==>
            Parents(path) == Parents(path') && name == name'
  {
    hide SafeLogicalKey, Split, IsBlank, Sibling, Parents;
    SiblingStaysBeside(path, name);
    SiblingStaysBeside(path', name');
    var parts, parts' := Parents(path) + [name], Parents(path') + [name'];
    if parts == parts' {
      assert parts[..|parts| - 1] == Parents(path) && parts'[..|parts'| - 1] == Parents(path');
      assert Sibling(path, name) == Sibling(path', name') by { SameSibling(path, name, path'); }
    }
  }

  lemma SameSibling(path: string, name: string, path': string)
    requires Parents(path) == Parents(path')
    ensures Sibling(path, name) == Sibling(path', name)
  {
  }

  /** The active records at a path; in SHARED whoever owns them. */
  function ActiveAt(records: Records, user: UserId, path: string, section: Section): set<FileId> {
    set id | id in records && records[id].Active() && records[id].path == path && records[id].section == section
             && (section == IndexLinks.Shared || records[id].owner == user)
  }

  predicate Sees(user: UserId, section: Section, owner: UserId) {
    section == IndexLinks.Shared || owner == user
  }

  /** Who finds which files where after a transaction, and who did before. */
  ghost predicate FoundThen(s: State, t: Transaction, user: UserId, path: string, section: Section)
    requires Applicable(s, t)
  {
    var before, after := ActiveAt(s.records, user, path, section), ActiveAt(Apply(s, t).records, user, path, section);
    match t
    case Upload(owner, place, _, at) =>
      after == before + if at == path && place == section && Sees(user, section, owner) then {s.nextId} else {}
    case Overwrite(_, _, _) => after == before
    case Archive(_) => after == before
    case RolledBack => after == before
    case DeleteOne(id) => after == before - {id}
    case DeleteTree(_, _, ids) => forall id :: id in after <==> id in before && id !in ids
    case ResetPrivate(_, ids) => forall id :: id in after <==> id in before && id !in ids
    case Rename(paths) =>
      forall id :: id in after <==>
        if id in paths then
          && paths[id] == path && s.records[id].section == section
          && Sees(user, section, s.records[id].owner)
        else id in before
    case StoreRun(owner, files) =>
      forall id :: id in after <==>
        || id in before
        || (&& s.nextId <= id < s.nextId + |files| && files[id - s.nextId].path == path
            && section == IndexLinks.Generated && user == owner)
    case Extract(owner, place, entries) =>
      forall id :: id in after <==>
        || id in before
        || (!Aborts(entries) && place == section && Sees(user, section, owner) && StoredAt(s.nextId, entries, path, id))
  }

  /** How many ids the entries take. */
  function IdsTaken(entries: seq<ZipEntry>): nat {
    if entries == [] then 0
    else IdsTaken(entries[..|entries| - 1]) + if entries[|entries| - 1].isDir then 0 else 1
  }

  predicate IsStored(e: ZipEntry) {
    !e.isDir && e.fate in {Extracted, QueueingFails}
  }

  /** One of the entries is a file stored at the path under the id that was its turn. */
  predicate StoredAt(first: FileId, entries: seq<ZipEntry>, path: string, id: FileId) {
    exists i | 0 <= i < |entries| ::
      IsStored(entries[i]) && entries[i].path == path && id == first + IdsTaken(entries[..i])
  }

  lemma FoundAfter(s: State, t: Transaction, user: UserId, path: string, section: Section)
    requires Applicable(s, t) && Issued(s)
    ensures FoundThen(s, t, user, path, section)
  {
    hide FoundThen, Apply, Applicable;
    match t
    case Upload(_, _, _, _) => FoundAfterWrite(s, t, user, path, section);
    case Overwrite(_, _, _) => FoundAfterWrite(s, t, user, path, section);
    case Archive(_) => FoundAfterWrite(s, t, user, path, section);
    case RolledBack => FoundAfterWrite(s, t, user, path, section);
    case DeleteOne(_) => FoundAfterWrite(s, t, user, path, section);
    case DeleteTree(_, _, ids) => FoundAfterRemoval(s, t, user, path, section);
    case ResetPrivate(_, ids) => FoundAfterRemoval(s, t, user, path, section);
    case Rename(_) => FoundAfterRename(s, t, user, path, section);
    case StoreRun(owner, files) => FoundAfterRun(s, owner, files, user, path, section);
    case Extract(owner, place, entries) => FoundAfterExtraction(s, owner, place, entries, user, path, section);
  }

  lemma FoundAfterWrite(s: State, t: Transaction, user: UserId, path: string, section: Section)
    requires Applicable(s, t) && Issued(s)
    requires t.Upload? || t.Overwrite? || t.Archive? || t.RolledBack? || t.DeleteOne?
    ensures FoundThen(s, t, user, path, section)
  {
    hide Charged, UsageOf;
  }

  lemma FoundAfterRename(s: State, t: Transaction, user: UserId, path: string, section: Section)
    requires Applicable(s, t) && t.Rename?
    ensures FoundThen(s, t, user, path, section)
  {
  }

  lemma FoundAfterRemoval(s: State, t: Transaction, user: UserId, path: string, section: Section)
    requires Applicable(s, t) && (t.DeleteTree? || t.ResetPrivate?)
    ensures FoundThen(s, t, user, path, section)
  {
    hide RemoveAll, SizeSum, OwnedActive, CommittedOf, Charged, UsageOf;
    Listed(s, t);
    forall id | id in s.records
      ensures id in RemoveAll(s, t.ids).records
      ensures RemoveAll(s, t.ids).records[id] ==
              if id in t.ids then s.records[id].(status := Deleted) else s.records[id]
    {
      RemoveAllRecords(s, t.ids, id);
    }
    SameIds(s, t.ids);
  }

  lemma Listed(s: State, t: Transaction)
    requires Applicable(s, t) && (t.DeleteTree? || t.ResetPrivate?)
    ensures forall id | id in t.ids :: id in s.records
  {
  }

  lemma {:induction false} SameIds(s: State, ids: seq<FileId>)
    requires forall id | id in ids :: id in s.records
    ensures RemoveAll(s, ids).records.Keys == s.records.Keys
    decreases |ids|
  {
    if ids != [] { SameIds(Removed(s, ids[0]), ids[1..]); }
  }

  lemma {:induction false} FoundAfterRun(s: State, owner: UserId, files: seq<NewFile>, user: UserId, path: string,
                                         section: Section)
    requires Issued(s)
    ensures FoundThen(s, StoreRun(owner, files), user, path, section)
    ensures var after := StoredFiles(s, owner, files); Issued(after) && after.nextId == s.nextId + |files|
    decreases |files|
  {
    hide Charged, UsageOf;
    if files != [] {
      var init, f := files[..|files| - 1], files[|files| - 1];
      FoundAfterRun(s, owner, init, user, path, section);
      var mid := StoredFiles(s, owner, init);
      FoundAfterWrite(mid, Upload(owner, IndexLinks.Generated, f.size, f.path), user, path, section);
    }
  }

  lemma FoundAfterEntry(s: State, owner: UserId, place: Section, e: ZipEntry, user: UserId, path: string,
                        section: Section)
    requires Issued(s) && (e.isDir || e.fate != StatementFails)
    ensures var after := ExtractedEntry(s, owner, place, e);
            && Issued(after) && after.nextId == s.nextId + (if e.isDir then 0 else 1)
            && forall id :: id in ActiveAt(after.records, user, path, section) <==>
                 || id in ActiveAt(s.records, user, path, section)
                 || (IsStored(e) && e.path == path && place == section && Sees(user, section, owner) && id == s.nextId)
  {
    hide Charged, UsageOf;
  }

  lemma StoredLast(first: FileId, entries: seq<ZipEntry>, path: string, id: FileId)
    requires entries != []
    ensures var init, e := entries[..|entries| - 1], entries[|entries| - 1];
            StoredAt(first, entries, path, id) <==>
            StoredAt(first, init, path, id) || (IsStored(e) && e.path == path && id == first + IdsTaken(init))
  {
    hide IdsTaken;
    var init := entries[..|entries| - 1];
    if StoredAt(first, entries, path, id) {
      var i :| 0 <= i < |entries| && IsStored(entries[i]) && entries[i].path == path
               && id == first + IdsTaken(entries[..i]);
      if i < |init| { assert init[i] == entries[i] && init[..i] == entries[..i]; }
    }
    if StoredAt(first, init, path, id) {
      var i :| 0 <= i < |init| && IsStored(init[i]) && init[i].path == path && id == first + IdsTaken(init[..i]);
      assert init[i] == entries[i] && init[..i] == entries[..i];
    }
  }

  lemma {:induction false} FoundAfterEntries(s: State, owner: UserId, place: Section, entries: seq<ZipEntry>,
                                             user: UserId, path: string, section: Section)
    requires Issued(s) && !Aborts(entries)
    ensures var after := ExtractedAll(s, owner, place, entries);
            && Issued(after) && after.nextId == s.nextId + IdsTaken(entries)
            && forall id :: id in ActiveAt(after.records, user, path, section) <==>
                 || id in ActiveAt(s.records, user, path, section)
                 || (place == section && Sees(user, section, owner) && StoredAt(s.nextId, entries, path, id))
    decreases |entries|
  {
    hide ExtractedEntry, ActiveAt, StoredAt, IsStored, Issued;
    if entries == [] {
      NoneStored(s.nextId, path);
    } else {
      var init, e := entries[..|entries| - 1], entries[|entries| - 1];
      assert e in entries && forall x | x in init :: x in entries;
      FoundAfterEntries(s, owner, place, init, user, path, section);
      FoundAfterEntry(ExtractedAll(s, owner, place, init), owner, place, e, user, path, section);
      forall id
        ensures StoredAt(s.nextId, entries, path, id) <==>
                || StoredAt(s.nextId, init, path, id)
                || (IsStored(e) && e.path == path && id == s.nextId + IdsTaken(init))
      {
        StoredLast(s.nextId, entries, path, id);
      }
    }
  }

  lemma FoundAfterExtraction(s: State, owner: UserId, place: Section, entries: seq<ZipEntry>, user: UserId,
                             path: string, section: Section)
    requires Issued(s)
    ensures FoundThen(s, Extract(owner, place, entries), user, path, section)
  {
    hide ExtractedAll, ActiveAt, StoredAt, Aborts;
    if !Aborts(entries) {
      FoundAfterEntries(s, owner, place, entries, user, path, section);
    }
  }

  lemma NoneStored(first: FileId, path: string)
    ensures forall id :: !StoredAt(first, [], path, id)
  {
  }

  /**
   * One service over one session. Whatever raises inside a method ends the
   * request, and the session is rolled back to where it began. `raisesAt` is
   * the step that raises, counted from zero; a larger number means none does.
   */
  class FileService {
    var records: Records
    var usages: map<UserId, Usage>
    var nextId: FileId
    const defaultLimit: int

    constructor (records: Records, usages: map<UserId, Usage>, nextId: FileId, defaultLimit: int)
      ensures S() == State(records, usages, nextId, defaultLimit)
    {
      this.records, this.usages, this.nextId, this.defaultLimit := records, usages, nextId, defaultLimit;
    }

    function S(): State
      reads this
    {
      State(records, usages, nextId, defaultLimit)
    }

    method Rollback(saved: State)
      requires saved.defaultLimit == defaultLimit
      modifies this
      ensures S() == saved
    {
      records, usages, nextId := saved.records, saved.usages, saved.nextId;
    }

    // ----- The repositories -----

    method Create(user: UserId, section: Section, size: nat, path: string) returns (id: FileId)
      modifies this`records, this`nextId
      ensures id == old(nextId) && S() == Put(old(S()), id, Record(user, section, size, path, PendingUpload))
    {
      id := nextId;
      records := records[id := Record(user, section, size, path, PendingUpload)];
      nextId := Max(nextId, id + 1);
    }

    method UpdateStatus(id: FileId, status: FileStatus)
      requires id in records
      modifies this`records, this`nextId
      ensures S() == Put(old(S()), id, old(records)[id].(status := status))
    {
      records := records[id := records[id].(status := status)];
      nextId := Max(nextId, id + 1);
    }

    method UpdateSize(id: FileId, size: nat)
      requires id in records
      modifies this`records, this`nextId
      ensures S() == Put(old(S()), id, old(records)[id].(size := size))
    {
      records := records[id := records[id].(size := size)];
      nextId := Max(nextId, id + 1);
    }

    method Increment(user: UserId, size: int, section: Section)
      modifies this`usages
      ensures S() == Charge(old(S()), user, size, section)
    {
      var u := UsageOf(S(), user);
      u := u.(totalBytes := u.totalBytes + size);
      if section == IndexLinks.Private {
        u := u.(privateBytes := u.privateBytes + size);
      } else if section == IndexLinks.Photos {
        u := u.(photosBytes := u.photosBytes + size);
      }
      usages := usages[user := u];
    }

    method Decrement(user: UserId, size: int, section: Section)
      modifies this`usages
      ensures S() == Charge(old(S()), user, 0 - size, section)
    {
      var u := UsageOf(S(), user);
      u := u.(totalBytes := u.totalBytes - size);
      if section == IndexLinks.Private {
        u := u.(privateBytes := u.privateBytes - size);
      } else if section == IndexLinks.Photos {
        u := u.(photosBytes := u.photosBytes - size);
      }
      usages := usages[user := u];
    }

    /** Nothing is written when the counter is zero already. */
    method ResetPrivateUsage(user: UserId)
      modifies this`usages
      ensures UsageOf(S(), user) == UsageOf(WithoutPrivate(old(S()), user), user)
      ensures forall u | u != user :: UsageOf(S(), u) == UsageOf(old(S()), u)
      ensures usages == old(usages) || S() == WithoutPrivate(old(S()), user)
    {
      var u := UsageOf(S(), user);
      if u.privateBytes == 0 { return; }
      usages := usages[user := u.(totalBytes := u.totalBytes - u.privateBytes, privateBytes := 0)];
    }

    method GetRecordBySectionPath(user: UserId, path: string, section: Section) returns (found: Found)
      ensures found.NoRecord? <==> ActiveAt(records, user, path, section) == {}
      ensures found.Several? <==> |ActiveAt(records, user, path, section)| > 1
      ensures found.One? ==> ActiveAt(records, user, path, section) == {found.id}
    {
      var matches := ActiveAt(records, user, path, section);
      if matches == {} { return NoRecord; }
      if |matches| != 1 { return Several; }
      var id :| id in matches;
      assert |matches - {id}| == 0;
      assert matches == {id};
      return One(id);
    }

    // ----- Uploads -----

    /** create, write, rename, commit, increment, enqueue: all of it or nothing. */
    method UploadFile(user: UserId, path: string, size: nat, section: Section, raisesAt: nat) returns (r: Outcome)
      modifies this
      ensures r == if raisesAt < 6 then Raised else Done
      ensures S() == if r == Done then Apply(old(S()), Upload(user, section, size, path)) else old(S())
    {
      var saved := S();
      if raisesAt == 0 { return Raised; }
      var id := Create(user, section, size, path);
      var ok := raisesAt > 2;
      if ok {
        UpdateStatus(id, Committed);
        ok := raisesAt > 3;
      }
      if ok && raisesAt > 4 {
        Increment(user, size, section);
        ok := raisesAt > 5;
      } else {
        ok := false;
      }
      if !ok {
        UpdateStatus(id, Deleted);
        Rollback(saved);
        return Raised;
      }
      return Done;
    }

    /** The quota guard of a route, with the private one in PRIVATE, then the upload. */
    method GuardedUpload(user: UserId, path: string, size: nat, section: Section, raisesAt: nat) returns (r: Outcome)
      modifies this
      ensures var t := Upload(user, section, size, path);
              && (r == QuotaExceeded <==> !Guarded(old(S()), t) || !PrivateGuarded(old(S()), t))
              && (r == Done <==> Guarded(old(S()), t) && PrivateGuarded(old(S()), t) && raisesAt >= 6)
              && S() == if r == Done then Apply(old(S()), t) else old(S())
    {
      var u := UsageOf(S(), user);
      if WouldExceed(u.totalBytes, u.limitBytes, size) { return QuotaExceeded; }
      if section == IndexLinks.Private {
        if u.privateLimitBytes > 0 && u.privateBytes + size > u.privateLimitBytes { return QuotaExceeded; }
      }
      r := UploadFile(user, path, size, section, raisesAt);
    }

    /** `_ensure_overwrite_quota`. */
    method EnsureOverwriteQuota(user: UserId, extra: nat, section: Section) returns (ok: bool)
      ensures var u := UsageOf(S(), user);
              ok <==>
              && !WouldExceed(u.totalBytes, u.limitBytes, extra)
              && (section == IndexLinks.Private ==> !WouldExceed(u.privateBytes, u.privateLimitBytes, extra))
    {
      var u := UsageOf(S(), user);
      if WouldExceed(u.totalBytes, u.limitBytes, extra) { return false; }
      if section == IndexLinks.Private {
        if WouldExceed(u.privateBytes, u.privateLimitBytes, extra) { return false; }
      }
      return true;
    }

    /**
     * Overwrite the record at the path, charging the difference to the caller;
     * with no record there it is an upload, and no quota is asked.
     */
    method OverwriteFile(user: UserId, path: string, size: nat, section: Section, raisesAt: nat)
      returns (r: Outcome, ghost t: Transaction)
      modifies this
      ensures Applicable(old(S()), t) && S() == Apply(old(S()), t)
      ensures r != Done ==> t == RolledBack
      ensures r == Done ==>
                var there := ActiveAt(old(records), user, path, section);
                if there == {} then t == Upload(user, section, size, path)
                else
                  && t.Overwrite? && there == {t.id} && t.actor == user && t.newSize == size
                  && Guarded(old(S()), t) && PrivateGuarded(old(S()), t)
      ensures r == Done && t.Overwrite? && section != IndexLinks.Shared ==>
                old(records)[t.id].owner == user && KeepsBooks(old(S()), t)
      ensures var there := ActiveAt(old(records), user, path, section);
              raisesAt >= 6 && |there| <= 1
              && (forall id | id in there ::
                    Guarded(old(S()), Overwrite(user, id, size)) && PrivateGuarded(old(S()), Overwrite(user, id, size)))
              ==> r == Done
    {
      t := RolledBack;
      var existing := GetRecordBySectionPath(user, path, section);
      if existing.Several? { return Raised, t; }
      if existing.NoRecord? {
        r := UploadFile(user, path, size, section, raisesAt);
        if r == Done { t := Upload(user, section, size, path); }
        return;
      }
      var id := existing.id;
      assert id in ActiveAt(records, user, path, section);
      var delta := size - records[id].size;
      if delta > 0 {
        var ok := EnsureOverwriteQuota(user, delta, section);
        if !ok { return QuotaExceeded, t; }
      }
      var saved := S();
      if raisesAt <= 2 { return Raised, t; }
      UpdateSize(id, size);
      if raisesAt == 3 { Rollback(saved); return Raised, t; }
      if delta > 0 {
        Increment(user, delta, section);
      } else if delta < 0 {
        Decrement(user, 0 - delta, section);
      }
      if raisesAt <= 5 { Rollback(saved); return Raised, t; }
      return Done, Overwrite(user, id, size);
    }

    // ----- Deletes -----

    /** Delete a downloadable record and give its size back to its owner. */
    method DeleteFile(actor: UserId, id: FileId, isAdmin: bool, section: Section, raises: bool) returns (r: Outcome)
      modifies this
      ensures r == Done ==> Applicable(old(S()), DeleteOne(id)) && S() == Apply(old(S()), DeleteOne(id))
      ensures r == Done <==>
                && !raises && id in old(records) && old(records)[id].status in {Committed, ArchivedFile}
                && (old(records)[id].owner == actor || (section == IndexLinks.Shared && isAdmin))
      ensures r != Done ==> S() == old(S())
    {
      if id !in records || !records[id].Active() { return Raised; }
      var record := records[id];
      if record.owner != actor && (section != IndexLinks.Shared || !isAdmin) { return Raised; }
      var saved := S();
      UpdateStatus(id, Deleted);
      if raises { Rollback(saved); return Raised; }
      Decrement(record.owner, record.size, record.section);
      return Done;
    }

    // ----- Renames -----

    /** A file renamed beside itself; archived files are refused. The stored path is the normalized one. */
    method RenameFile(actor: UserId, id: FileId, name: string, section: Section, raises: bool) returns (r: Outcome)
      modifies this`records
      ensures r == Done <==>
                && id in old(records) && old(records)[id].status == Committed && !raises
                && (section == IndexLinks.Shared || old(records)[id].owner == actor)
                && SafeLogicalKey(Sibling(old(records)[id].path, name)).Some?
      ensures r == Done ==>
                var t := Rename(map[id := SafeLogicalKey(Sibling(old(records)[id].path, name)).value]);
                Applicable(old(S()), t) && S() == Apply(old(S()), t)
      ensures r == Done && PlainPath(old(records)[id].path) && Plain(name) && BlankFree(old(records)[id].path, name) ==>
                Split(records[id].path) == Parents(old(records)[id].path) + [name]
      ensures r != Done ==> S() == old(S())
    {
      hide SafeLogicalKey, Sibling, BlankFree, Parents;
      if id !in records || !records[id].Active() { return Raised; }
      var record := records[id];
      if section != IndexLinks.Shared && record.owner != actor { return Raised; }
      if record.status == ArchivedFile { return Raised; }
      var key := SafeLogicalKey(Sibling(record.path, name));
      if key.None? || raises { return Raised; }
      if PlainPath(record.path) && Plain(name) { SiblingStaysBeside(record.path, name); }
      ghost var t := Rename(map[id := key.value]);
      records := records[id := record.(path := key.value)];
      assert records == Apply(old(S()), t).records;
      return Done;
    }

    /** The committed records the directory's pattern selects get the new prefix. */
    method RenameDirectory(user: UserId, section: Section, from: string, to: string, raises: bool) returns (r: Outcome)
      modifies this`records
      ensures r == Done <==> !raises
      ensures var t := Rename(NewPaths(old(records), user, section, from, to));
              Applicable(old(S()), t) && S() == if r == Done then Apply(old(S()), t) else old(S())
      ensures r == Done ==> Repathing(old(records), records, user, section, from, to)
    {
      hide NewPaths, InScope, Repathing;
      AllCommitted(records, user, section, from, to);
      PathsAreNew(S(), user, section, from, to);
      if raises { return Raised; }
      var paths := NewPaths(records, user, section, from, to);
      var rest := paths.Keys;
      while rest != {}
        invariant rest <= paths.Keys && records.Keys == old(records).Keys
        invariant forall id | id in records ::
                    records[id] == if id in paths && id !in rest then old(records)[id].(path := paths[id])
                                   else old(records)[id]
      {
        var id :| id in rest;
        records := records[id := records[id].(path := paths[id])];
        rest := rest - {id};
      }
      assert records == Apply(old(S()), Rename(paths)).records;
      return Done;
    }

    /** Committed records of the section, in SHARED anybody's, whose path the pattern selects, and no others. */
    ghost predicate Repathing(before: Records, after: Records, user: UserId, section: Section, from: string,
                              to: string)
    {
      && after.Keys == before.Keys
      && forall id | id in before ::
           after[id] ==
           if before[id].status == Committed && before[id].section == section
              && (section == IndexLinks.Shared || before[id].owner == user)
              && StartsLike(from + "/", before[id].path)
           then before[id].(path := to + From(before[id].path, |from|)) else before[id]
    }

    lemma PathsAreNew(s: State, user: UserId, section: Section, from: string, to: string)
      ensures Repathing(s.records, Renamed(s, NewPaths(s.records, user, section, from, to)).records, user, section,
                        from, to)
    {
      hide StartsLike, From;
    }

    lemma AllCommitted(records: Records, user: UserId, section: Section, from: string, to: string)
      ensures forall id | id in NewPaths(records, user, section, from, to) ::
                id in records && records[id].status == Committed
    {
    }

    /** The active records of a user's section whose path the directory's pattern selects, in some order. */
    method ListActiveUnderPrefix(user: UserId, section: Section, prefix: string) returns (ids: seq<FileId>)
      ensures OwnedActive(records, ids, user, section)
      ensures forall id :: id in ids <==>
                && id in records && records[id].Active() && records[id].owner == user
                && records[id].section == section && StartsLike(prefix, records[id].path)
    {
      ids := [];
      var rest := set id | id in records && records[id].Active() && records[id].owner == user
                           && records[id].section == section && StartsLike(prefix, records[id].path);
      ghost var all := rest;
      while rest != {}
        invariant rest <= all && forall id :: id in all <==> id in ids || id in rest
        invariant forall i | 0 <= i < |ids| :: ids[i] !in rest
        invariant Distinct(ids)
      {
        var id :| id in rest;
        ids, rest := ids + [id], rest - {id};
      }
    }

    /**
     * Delete the records a directory's pattern selects and release their sizes
     * in one decrement; they are the directory's own exactly under the condition
     * of PrefixSelectsItsOwn.
     */
    method DeleteDirectoryRecursive(user: UserId, section: Section, prefix: string, standing: Standing, raises: bool)
      returns (r: Outcome, released: int, ghost ids: seq<FileId>)
      modifies this
      ensures OwnedActive(old(records), ids, user, section)
      ensures forall id :: id in ids <==>
                && id in old(records) && old(records)[id].Active() && old(records)[id].owner == user
                && old(records)[id].section == section && StartsLike(prefix, old(records)[id].path)
      ensures r == Done ==> released == SizeSum(old(records), ids)
      ensures S() == if r == Done then Apply(old(S()), DeleteTree(user, section, ids)) else old(S())
      ensures r == Done <==> standing == Directory && !raises
    {
      var saved := S();
      var listed := ListActiveUnderPrefix(user, section, prefix);
      ids := listed;
      released := 0;
      if standing != Directory { return Raised, released, ids; }
      for i := 0 to |listed|
        invariant S() == saved && released + SizeSum(records, listed[i..]) == SizeSum(records, listed)
      {
        assert listed[i..][1..] == listed[i + 1..];
        released := released + records[listed[i]].size;
      }
      assert listed[|listed|..] == [];
      for i := 0 to |listed|
        invariant records.Keys == saved.records.Keys && defaultLimit == saved.defaultLimit
        invariant RemoveAll(S(), listed[i..]) == RemoveAll(saved, listed)
      {
        assert listed[i..][0] == listed[i] && listed[i..][1..] == listed[i + 1..];
        UpdateStatus(listed[i], Deleted);
      }
      if raises { Rollback(saved); return Raised, released, ids; }
      if released != 0 { Decrement(user, released, section); }
      return Done, released, ids;
    }

    /** The COMMITTED records of a user's section, in some order. */
    method ListCommitted(user: UserId, section: Section) returns (ids: seq<FileId>)
      ensures CommittedOf(records, ids, user, section)
    {
      ids := [];
      var rest := set id | id in records && records[id].status == Committed && records[id].owner == user
                           && records[id].section == section;
      ghost var all := rest;
      while rest != {}
        invariant rest <= all && forall id :: id in all <==> id in ids || id in rest
        invariant forall i | 0 <= i < |ids| :: ids[i] !in rest
        invariant Distinct(ids)
      {
        var id :| id in rest;
        ids, rest := ids + [id], rest - {id};
      }
    }

    /** Mark the user's committed private records deleted and clear the counter. */
    method ResetStorage(user: UserId, raises: bool) returns (r: Outcome, ghost ids: seq<FileId>)
      modifies this
      ensures CommittedOf(old(records), ids, user, IndexLinks.Private)
      ensures r == Done <==> !raises
      ensures r != Done ==> S() == old(S())
      ensures r == Done ==> records == Apply(old(S()), ResetPrivate(user, ids)).records
      ensures r == Done ==> forall u :: UsageOf(S(), u) == UsageOf(Apply(old(S()), ResetPrivate(user, ids)), u)
    {
      var saved := S();
      var committed := ListCommitted(user, IndexLinks.Private);
      ids := committed;
      for i := 0 to |committed|
        invariant records.Keys == saved.records.Keys && usages == saved.usages
        invariant RemoveAll(S(), committed[i..]) == RemoveAll(saved, committed)
      {
        assert committed[i..][0] == committed[i] && committed[i..][1..] == committed[i + 1..];
        UpdateStatus(committed[i], Deleted);
      }
      assert committed[|committed|..] == [];
      if raises { Rollback(saved); return Raised, ids; }
      ResetPrivateUsage(user);
      return Done, ids;
    }

    // ----- Zip folders and generated runs -----

    /**
     * The archive's names, the guards of the request, then the extraction loop,
     * which swallows what an entry raises. A request whose session was aborted
     * leaves nothing.
     */
    method UploadZipFolder(user: UserId, section: Section, entries: seq<ZipEntry>)
      returns (r: Outcome, files: nat, written: nat)
      requires Issued(S())
      modifies this
      ensures entries == [] || EscapingArchive(entries) ==> r == Raised
      ensures r == QuotaExceeded <==>
              entries != [] && !EscapingArchive(entries) && !Guarded(old(S()), Extract(user, section, entries))
      ensures r == Done <==>
              && entries != [] && !EscapingArchive(entries) && Guarded(old(S()), Extract(user, section, entries))
              && !Aborts(entries)
      ensures S() == if r == Done then Apply(old(S()), Extract(user, section, entries)) else old(S())
      ensures r == Done ==> files == ReportedFiles(entries) && written == ReportedBytes(entries)
    {
      files, written := 0, 0;
      if entries == [] { return Raised, files, written; }
      var total := 0;
      for i := 0 to |entries|
        invariant total == UncompressedSize(entries[..i]) && S() == old(S())
        invariant forall k | 0 <= k < i :: !Escapes(entries[k].name)
      {
        assert entries[..i + 1][..i] == entries[..i];
        if Escapes(entries[i].name) { return Raised, files, written; }
        total := total + entries[i].size;
      }
      assert entries[..|entries|] == entries;
      var u := UsageOf(S(), user);
      if WouldExceed(u.totalBytes, u.limitBytes, total) { return QuotaExceeded, files, written; }
      var available := if IsUnlimited(u.limitBytes) then total else AvailableBytes(u.totalBytes, u.limitBytes);
      if total > available { return QuotaExceeded, files, written; }
      var saved := S();
      var aborted;
      files, written, aborted := ExtractFiles(user, section, entries);
      if aborted { Rollback(saved); return Raised, files, written; }
      return Done, files, written;
    }

    /** The loop over the entries; it always reaches the last, though after a failed statement every other one fails. */
    method ExtractFiles(user: UserId, section: Section, entries: seq<ZipEntry>)
      returns (files: nat, written: nat, aborted: bool)
      requires Issued(S())
      modifies this
      ensures aborted <==> Aborts(entries)
      ensures !aborted ==>
                && S() == ExtractedAll(old(S()), user, section, entries)
                && files == ReportedFiles(entries) && written == ReportedBytes(entries)
    {
      hide ExtractedEntry;
      files, written, aborted := 0, 0, false;
      for i := 0 to |entries|
        invariant aborted <==> Aborts(entries[..i])
        invariant !aborted ==>
                    && S() == ExtractedAll(old(S()), user, section, entries[..i]) && Issued(S())
                    && files == ReportedFiles(entries[..i]) && written == ReportedBytes(entries[..i])
      {
        assert entries[..i + 1] == entries[..i] + [entries[i]] && entries[..i + 1][..i] == entries[..i];
        var e := entries[i];
        if !e.isDir && e.fate == StatementFails {
          aborted := true;
        } else if e.isDir {
          DirectoryEntryIsFree(S(), user, section, e);
        } else if !aborted {
          ExtractEntry(user, section, e);
          if e.fate == Extracted { files, written := files + 1, written + e.size; }
        }
      }
      assert entries[..|entries|] == entries;
    }

    method ExtractEntry(user: UserId, section: Section, e: ZipEntry)
      requires !e.isDir && e.fate != StatementFails && Issued(S())
      modifies this
      ensures Issued(S()) && S() == ExtractedEntry(old(S()), user, section, e)
    {
      var id := Create(user, section, e.size, e.path);
      if e.fate == FailsBeforeCommit { return; }
      if e.fate == RecordVanishes {
        records := records - {id};
        assert records == old(records);
        return;
      }
      UpdateStatus(id, Committed);
      Increment(user, e.size, section);
    }

    /** Check the whole run's size, then upload each file; any failure undoes the run. */
    method StoreGeneratedRun(user: UserId, files: seq<NewFile>, raisesAt: nat) returns (r: Outcome)
      modifies this
      ensures r == QuotaExceeded <==> !Guarded(old(S()), StoreRun(user, files))
      ensures S() == if r == Done then Apply(old(S()), StoreRun(user, files)) else old(S())
      ensures r == Done <==> Guarded(old(S()), StoreRun(user, files)) && raisesAt >= |files|
    {
      var total := 0;
      for i := 0 to |files|
        invariant total == FilesSize(files[..i]) && S() == old(S())
      {
        assert files[..i + 1][..i] == files[..i];
        total := total + files[i].size;
      }
      assert files[..|files|] == files;
      var u := UsageOf(S(), user);
      if WouldExceed(u.totalBytes, u.limitBytes, total) { return QuotaExceeded; }
      var saved := S();
      for i := 0 to |files|
        invariant S() == StoredFiles(saved, user, files[..i]) && i <= raisesAt
      {
        assert files[..i + 1][..i] == files[..i];
        var step := UploadFile(user, files[i].path, files[i].size, IndexLinks.Generated,
                               if raisesAt == i then 1 else 6);
        if step != Done { Rollback(saved); return Raised; }
      }
      return Done;
    }
  }

  lemma DirectoryEntryIsFree(s: State, user: UserId, section: Section, e: ZipEntry)
    requires e.isDir
    ensures ExtractedEntry(s, user, section, e) == s
  {
  }
}
