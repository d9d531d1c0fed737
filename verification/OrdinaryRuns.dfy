/** Private files and the archive job: which runs keep the ledger through private resets. */
module OrdinaryRuns {
  import opened StorageLedger
  import ArchiveJob
  import EncryptedAdapter
  import EncryptedStream
  import IndexLinks
  import ObjectStoreSpec
  import ObjectTree

  /**
   * The paths of a user's private section at which an object may stand under its
   * plain name. The archive job looks for a record's object at the record's own
   * path, and in PRIVATE finds one nowhere else.
   */
  type Reserved = (UserId, string) -> bool

  /** No private record is archived, nor could be. */
  predicate PrivateInPlace(reserved: Reserved, s: State) {
    forall id | id in s.records && s.records[id].section == IndexLinks.Private && s.records[id].Active() ::
      s.records[id].status == Committed && !reserved(s.records[id].owner, s.records[id].path)
  }

  /** No private file is given a reserved path, and an overwrite is by the owner, as its lookup gives outside SHARED. */
  predicate Ordinary(reserved: Reserved, s: State, t: Transaction)
    requires Applicable(s, t)
  {
    match t
    case Upload(user, section, _, path) => section == IndexLinks.Private ==> !reserved(user, path)
    case Extract(user, section, entries) =>
      section == IndexLinks.Private ==> forall e | e in entries :: !reserved(user, e.path)
    case Rename(paths) =>
      forall id | id in paths && s.records[id].section == IndexLinks.Private ::
        !reserved(s.records[id].owner, paths[id])
    case Overwrite(actor, id, _) => actor == s.records[id].owner
    case _ => true
  }

  /** What is archived was found. */
  predicate Findable(reserved: Reserved, s: State, t: Transaction)
    requires Applicable(s, t)
  {
    t.Archive? && s.records[t.id].section == IndexLinks.Private ==>
      reserved(s.records[t.id].owner, s.records[t.id].path)
  }

  predicate AllOrdinary(reserved: Reserved, s: State, run: seq<Transaction>)
    requires Runs(s, run)
    decreases |run|
  {
    run != [] ==> Ordinary(reserved, s, run[0]) && AllOrdinary(reserved, Apply(s, run[0]), run[1..])
  }

  predicate AllFindable(reserved: Reserved, s: State, run: seq<Transaction>)
    requires Runs(s, run)
    decreases |run|
  {
    run != [] ==> Findable(reserved, s, run[0]) && AllFindable(reserved, Apply(s, run[0]), run[1..])
  }

  lemma {:induction false} ExtractionInPlace(reserved: Reserved, s: State, user: UserId, section: Section,
                                             entries: seq<ZipEntry>)
    requires PrivateInPlace(reserved, s)
    requires section == IndexLinks.Private ==> forall e | e in entries :: !reserved(user, e.path)
    ensures PrivateInPlace(reserved, ExtractedAll(s, user, section, entries))
    decreases |entries|
  {
    if entries != [] {
      var e := entries[|entries| - 1];
      assert forall x | x in entries[..|entries| - 1] :: x in entries;
      assert e in entries;
      ExtractionInPlace(reserved, s, user, section, entries[..|entries| - 1]);
    }
  }

  lemma {:induction false} StoredFilesInPlace(reserved: Reserved, s: State, owner: UserId, files: seq<NewFile>)
    requires PrivateInPlace(reserved, s)
    ensures PrivateInPlace(reserved, StoredFiles(s, owner, files))
    decreases |files|
  {
    if files != [] {
      StoredFilesInPlace(reserved, s, owner, files[..|files| - 1]);
    }
  }

  lemma {:induction false} RemoveAllInPlace(reserved: Reserved, s: State, ids: seq<FileId>)
    requires PrivateInPlace(reserved, s) && forall id | id in ids :: id in s.records
    ensures PrivateInPlace(reserved, RemoveAll(s, ids))
    decreases |ids|
  {
    if ids != [] {
      RemoveAllInPlace(reserved, Removed(s, ids[0]), ids[1..]);
    }
  }

  lemma OrdinaryStaysInPlace(reserved: Reserved, s: State, t: Transaction)
    requires Applicable(s, t) && Ordinary(reserved, s, t) && Findable(reserved, s, t) && PrivateInPlace(reserved, s)
    ensures KeepsBooks(s, t) && PrivateInPlace(reserved, Apply(s, t))
  {
    hide ExtractedAll, StoredFiles, RemoveAll, SizeSum;
    match t {
      case DeleteTree(_, _, ids) => RemoveAllInPlace(reserved, s, ids);
      case ResetPrivate(_, ids) => RemoveAllInPlace(reserved, s, ids);
      case Extract(user, section, entries) => ExtractionInPlace(reserved, s, user, section, entries);
      case StoreRun(owner, files) => StoredFilesInPlace(reserved, s, owner, files);
      case _ =>
    }
  }

  /** Every ordinary run keeps the ledger, private resets, renames and archiving included. */
  lemma {:induction false} OrdinaryRunKeepsLedger(reserved: Reserved, s: State, run: seq<Transaction>)
    requires Ledger(s) && PrivateInPlace(reserved, s)
    requires Runs(s, run) && AllOrdinary(reserved, s, run) && AllFindable(reserved, s, run)
    ensures Ledger(Final(s, run)) && PrivateInPlace(reserved, Final(s, run))
    decreases |run|
  {
    hide Ledger, KeepsBooks, Applicable, Apply, Ordinary, Findable, PrivateInPlace;
    if run != [] {
      OrdinaryStaysInPlace(reserved, s, run[0]);
      TransactionKeepsLedger(s, run[0]);
      OrdinaryRunKeepsLedger(reserved, Apply(s, run[0]), run[1..]);
    }
  }

  /**
   * And whichever private file is archived, its owner's next reset breaks the
   * ledger exactly when the file has bytes.
   */
  lemma ArchivedThenReset(s: State, id: FileId, ids: seq<FileId>)
    requires Ledger(s) && PrivateInPlace((_, _) => false, s) && Applicable(s, Archive(id))
    requires s.records[id].section == IndexLinks.Private
    requires Applicable(Apply(s, Archive(id)), ResetPrivate(s.records[id].owner, ids))
    ensures Ledger(Apply(Apply(s, Archive(id)), ResetPrivate(s.records[id].owner, ids))) <==> s.records[id].size == 0
  {
    hide Ledger, PrivateReset;
    var archived := Apply(s, Archive(id));
    TransactionKeepsLedger(s, Archive(id));
    TransactionKeepsLedger(archived, ResetPrivate(s.records[id].owner, ids));
    assert id in archived.records;
  }

  // ----- Runs over the stores of encrypted sections -----

  /** A user's private section: the keys used for it, one after each reset, and its root on the disk. */
  datatype Vault = Vault(ciphers: seq<EncryptedStream.Cipher>, root: ObjectTree.Path)

  /** Reserved under one of the keys. */
  predicate ReservedPath(v: Vault, path: string) {
    exists i | 0 <= i < |v.ciphers| :: ArchiveJob.ReservedPath(v.ciphers[i], v.root, path)
  }

  function ReservedIn(vaults: UserId -> Vault): Reserved {
    (user: UserId, path: string) => ReservedPath(vaults(user), path)
  }

  /** Everything below the section's root stands under names of one of its keys. */
  ghost predicate Shaped(v: Vault, o: ObjectStoreSpec.Objects) {
    exists i | 0 <= i < |v.ciphers| :: EncryptedAdapter.Shaped(v.ciphers[i], ObjectTree.Segments(o), v.root)
  }

  /** Whenever a private record is archived the job found its object in the store of that moment. */
  ghost predicate AllFound(vaults: UserId -> Vault, s: State, run: seq<Transaction>,
                           stores: seq<ObjectStoreSpec.Objects>)
    requires Runs(s, run) && |stores| == |run|
    decreases |run|
  {
    run != [] ==>
      && (run[0].Archive? && s.records[run[0].id].section == IndexLinks.Private ==>
            var r := s.records[run[0].id];
            ArchiveJob.FoundAt(stores[0], vaults(r.owner).root, r.path))
      && AllFound(vaults, Apply(s, run[0]), run[1..], stores[1..])
  }

  /** What every operation of the encrypting adapter and the archive job keep, at every moment and for every user. */
  ghost predicate AllShaped(vaults: UserId -> Vault, stores: seq<ObjectStoreSpec.Objects>) {
    forall o, user | o in stores :: Shaped(vaults(user), o)
  }

  lemma {:induction false} FoundIsFindable(vaults: UserId -> Vault, s: State, run: seq<Transaction>,
                                           stores: seq<ObjectStoreSpec.Objects>)
    requires Runs(s, run) && |stores| == |run| && AllFound(vaults, s, run, stores) && AllShaped(vaults, stores)
    ensures AllFindable(ReservedIn(vaults), s, run)
    decreases |run|
  {
    hide Applicable, Apply, ArchiveJob.FoundAt, ReservedPath, Shaped;
    if run != [] {
      if run[0].Archive? {
        assert forall o | o in [stores[0]] :: o in stores;
        FindableArchive(vaults, s, run[0], stores[0]);
      }
      assert forall o | o in stores[1..] :: o in stores;
      FoundIsFindable(vaults, Apply(s, run[0]), run[1..], stores[1..]);
    }
  }

  lemma FindableArchive(vaults: UserId -> Vault, s: State, t: Transaction, o: ObjectStoreSpec.Objects)
    requires Applicable(s, t) && t.Archive? && AllShaped(vaults, [o])
    requires var r := s.records[t.id];
             r.section == IndexLinks.Private ==> ArchiveJob.FoundAt(o, vaults(r.owner).root, r.path)
    ensures Findable(ReservedIn(vaults), s, t)
  {
    hide ArchiveJob.FoundAt, ArchiveJob.ReservedPath, EncryptedAdapter.Shaped, ObjectTree.Segments;
    var r := s.records[t.id];
    assert o in [o] && Shaped(vaults(r.owner), o);
    if r.section == IndexLinks.Private {
      var v := vaults(r.owner);
      var i :| 0 <= i < |v.ciphers| && EncryptedAdapter.Shaped(v.ciphers[i], ObjectTree.Segments(o), v.root);
      ArchiveJob.FoundIsReserved(v.ciphers[i], o, v.root, r.path);
    }
  }

  /**
   * Whatever the archive job and the private sections' operations do, a run that
   * gives no private file a reserved path keeps the ledger.
   */
  lemma PrivateRunKeepsLedger(vaults: UserId -> Vault, s: State, run: seq<Transaction>,
                              stores: seq<ObjectStoreSpec.Objects>)
    requires Ledger(s) && PrivateInPlace(ReservedIn(vaults), s)
    requires Runs(s, run) && AllOrdinary(ReservedIn(vaults), s, run)
    requires |stores| == |run| && AllFound(vaults, s, run, stores) && AllShaped(vaults, stores)
    ensures Ledger(Final(s, run))
  {
    FoundIsFindable(vaults, s, run, stores);
    OrdinaryRunKeepsLedger(ReservedIn(vaults), s, run);
  }

  function MarkerRun(user: UserId, size: nat): seq<Transaction> {
    [Upload(user, IndexLinks.Private, size, EncryptedAdapter.MARKER_FILENAME), Archive(0), ResetPrivate(user, [])]
  }

  lemma OneStep(s: State, run: seq<Transaction>)
    requires run != [] && Applicable(s, run[0]) && Runs(Apply(s, run[0]), run[1..])
    ensures Runs(s, run) && Final(s, run) == Final(Apply(s, run[0]), run[1..])
  {
    hide Applicable, Apply;
  }

  lemma ThreeSteps(s: State, t0: Transaction, t1: Transaction, t2: Transaction)
    requires Applicable(s, t0) && Applicable(Apply(s, t0), t1) && Applicable(Apply(Apply(s, t0), t1), t2)
    ensures Runs(s, [t0, t1, t2]) && Final(s, [t0, t1, t2]) == Apply(Apply(Apply(s, t0), t1), t2)
  {
    hide Applicable, Apply;
    var s1, s2 := Apply(s, t0), Apply(Apply(s, t0), t1);
    assert [t0, t1, t2][1..] == [t1, t2] && [t1, t2][1..] == [t2] && [t2][1..] == [];
    OneStep(s2, [t2]);
    OneStep(s1, [t1, t2]);
    OneStep(s, [t0, t1, t2]);
  }

  /**
   * A run that does: a private file called like the marker is archived in the
   * marker's place, and the section reset.
   */
  lemma MarkerBreaksReset(vaults: UserId -> Vault, user: UserId, size: nat, limit: int, o: ObjectStoreSpec.Objects)
    requires vaults(user).root != [] && ObjectTree.Tidy(vaults(user).root) && size > 0
    requires vaults(user).root + [EncryptedAdapter.MARKER_FILENAME] in ObjectTree.Segments(o)
    ensures var s := State(map[], map[], 0, limit);
            Ledger(s) && Runs(s, MarkerRun(user, size)) && !Ledger(Final(s, MarkerRun(user, size)))
    ensures var s := State(map[], map[], 0, limit);
            Runs(s, MarkerRun(user, size)) && AllFound(vaults, s, MarkerRun(user, size), [o, o, o])
  {
    hide Ledger, PrivateReset, ArchiveJob.FoundAt, ObjectTree.Segments, ObjectTree.Tidy, EncryptedAdapter.Shaped;
    var s := State(map[], map[], 0, limit);
    var t0, t1, t2 := MarkerRun(user, size)[0], Archive(0), ResetPrivate(user, []);
    EmptyLedger(limit);
    TransactionKeepsLedger(s, t0);
    var s1 := Apply(s, t0);
    var r := Record(user, IndexLinks.Private, size, EncryptedAdapter.MARKER_FILENAME, Committed);
    assert s1.records == map[0 := r];
    TransactionKeepsLedger(s1, t1);
    var s2 := Apply(s1, t1);
    assert s2.records[0] == r.(status := ArchivedFile);
    TransactionKeepsLedger(s2, t2);
    ThreeSteps(s, t0, t1, t2);
    ArchiveJob.MarkerIsFound(o, vaults(user).root);
    FoundInThree(vaults, s, t0, t1, t2, o);
  }

  lemma EmptyLedger(limit: int)
    ensures Ledger(State(map[], map[], 0, limit))
  {
  }

  lemma FoundInThree(vaults: UserId -> Vault, s: State, t0: Transaction, t1: Transaction, t2: Transaction,
                     o: ObjectStoreSpec.Objects)
    requires Applicable(s, t0) && Applicable(Apply(s, t0), t1) && Applicable(Apply(Apply(s, t0), t1), t2)
    requires Runs(s, [t0, t1, t2]) && !t0.Archive? && t1.Archive? && !t2.Archive?
    requires var r := Apply(s, t0).records[t1.id]; ArchiveJob.FoundAt(o, vaults(r.owner).root, r.path)
    ensures AllFound(vaults, s, [t0, t1, t2], [o, o, o])
  {
    hide Apply, ArchiveJob.FoundAt;
    ThreeSteps(s, t0, t1, t2);
    var s1, s2 := Apply(s, t0), Apply(Apply(s, t0), t1);
    assert [t0, t1, t2][1..] == [t1, t2] && [t1, t2][1..] == [t2] && [t2][1..] == [];
    assert [o, o, o][1..] == [o, o] && [o, o][1..] == [o] && [o][1..] == [];
    assert AllFound(vaults, s2, [t2], [o]);
    assert AllFound(vaults, s1, [t1, t2], [o, o]);
  }
}
