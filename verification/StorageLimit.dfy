/** What the guards of uploads, overwrites, extractions and generated runs keep: no total passes its limit. */
module StorageLimit {
  import opened Common
  import opened StorageLedger
  import IndexLinks

  /** The check each request makes before it writes; an overwrite is checked only when it grows. */
  predicate Guarded(s: State, t: Transaction)
    requires Applicable(s, t)
  {
    match t
    case Upload(user, _, size, _) => !WouldExceed(UsageOf(s, user).totalBytes, UsageOf(s, user).limitBytes, size)
    case Overwrite(actor, id, size) =>
      size > s.records[id].size ==>
        !WouldExceed(UsageOf(s, actor).totalBytes, UsageOf(s, actor).limitBytes, size - s.records[id].size)
    case Extract(user, _, entries) =>
      !WouldExceed(UsageOf(s, user).totalBytes, UsageOf(s, user).limitBytes, UncompressedSize(entries))
    case StoreRun(owner, files) =>
      !WouldExceed(UsageOf(s, owner).totalBytes, UsageOf(s, owner).limitBytes, FilesSize(files))
    case _ => true
  }

  /** The further check of the private section; no request extracts an archive into it. */
  predicate PrivateGuarded(s: State, t: Transaction)
    requires Applicable(s, t)
  {
    match t
    case Upload(user, section, size, _) =>
      section == IndexLinks.Private ==>
        !WouldExceed(UsageOf(s, user).privateBytes, UsageOf(s, user).privateLimitBytes, size)
    case Overwrite(actor, id, size) =>
      s.records[id].section == IndexLinks.Private && size > s.records[id].size ==>
        !WouldExceed(UsageOf(s, actor).privateBytes, UsageOf(s, actor).privateLimitBytes, size - s.records[id].size)
    case Extract(_, section, _) => section != IndexLinks.Private
    case _ => true
  }

  // ----- What many records charge -----

  lemma {:induction false} RemoveAllUsages(s: State, ids: seq<FileId>)
    requires forall id | id in ids :: id in s.records
    ensures RemoveAll(s, ids).usages == s.usages && RemoveAll(s, ids).defaultLimit == s.defaultLimit
    decreases |ids|
  {
    if ids != [] {
      RemoveAllUsages(Removed(s, ids[0]), ids[1..]);
    }
  }

  /** An extraction charges its user the sizes of its committed entries, and nobody else anything. */
  lemma {:induction false} ExtractedUsage(s: State, user: UserId, section: Section, entries: seq<ZipEntry>, u: UserId)
    ensures UsageOf(ExtractedAll(s, user, section, entries), u) ==
            if u == user then Charged(UsageOf(s, u), ExtractedBytes(entries), section) else UsageOf(s, u)
    decreases |entries|
  {
    if entries != [] {
      ExtractedUsage(s, user, section, entries[..|entries| - 1], u);
    }
  }

  lemma {:induction false} StoredFilesUsage(s: State, owner: UserId, files: seq<NewFile>, u: UserId)
    ensures UsageOf(StoredFiles(s, owner, files), u) ==
            if u == owner then Charged(UsageOf(s, u), FilesSize(files), IndexLinks.Generated) else UsageOf(s, u)
    decreases |files|
  {
    if files != [] {
      StoredFilesUsage(s, owner, files[..|files| - 1], u);
    }
  }

  /** What an extraction charges never exceeds the size checked up front. */
  lemma {:induction false} ChargedWithinSize(entries: seq<ZipEntry>)
    ensures ExtractedBytes(entries) <= UncompressedSize(entries)
    decreases |entries|
  {
    if entries != [] {
      ChargedWithinSize(entries[..|entries| - 1]);
    }
  }

  // ----- One transaction -----

  /** A reset takes the private counter off the total, so it raises the total exactly when that counter is negative. */
  lemma ResetLowersTotal(s: State, owner: UserId, ids: seq<FileId>, user: UserId)
    requires Applicable(s, ResetPrivate(owner, ids))
    ensures var before, after := UsageOf(s, user), UsageOf(Apply(s, ResetPrivate(owner, ids)), user);
            after == if user == owner
                     then before.(totalBytes := before.totalBytes - before.privateBytes, privateBytes := 0)
                     else before
  {
    hide RemoveAll;
    RemoveAllUsages(s, ids);
  }

  /** The reset of a user whose private counter is negative: the only guarded transaction that could raise the total. */
  predicate NegativeReset(s: State, t: Transaction, user: UserId) {
    t.ResetPrivate? && t.user == user && UsageOf(s, user).privateBytes < 0
  }

  /**
   * No guarded transaction raises a user's total above what it was or the user's
   * positive limit, whether or not the counters still equal their sums.
   */
  lemma GuardedKeepsLimit(s: State, t: Transaction, user: UserId)
    requires Applicable(s, t) && Guarded(s, t)
    ensures UsageOf(Apply(s, t), user).limitBytes == UsageOf(s, user).limitBytes
    ensures !IsUnlimited(UsageOf(s, user).limitBytes) && !NegativeReset(s, t, user) ==>
              UsageOf(Apply(s, t), user).totalBytes <= Max(UsageOf(s, user).totalBytes, UsageOf(s, user).limitBytes)
  {
    hide RemoveAll, SizeSum, StoredFiles, ExtractedAll;
    match t {
      case DeleteTree(_, _, ids) => RemoveAllUsages(s, ids);
      case ResetPrivate(owner, ids) => ResetLowersTotal(s, owner, ids, user);
      case Extract(owner, section, entries) =>
        ExtractedUsage(s, owner, section, entries, user);
        ChargedWithinSize(entries);
      case StoreRun(owner, files) => StoredFilesUsage(s, owner, files, user);
      case _ =>
    }
  }

  /** Nor does one that passed the private check raise the private counter above what it was or its own limit. */
  lemma GuardedKeepsPrivateLimit(s: State, t: Transaction, user: UserId)
    requires Applicable(s, t) && PrivateGuarded(s, t)
    ensures UsageOf(Apply(s, t), user).privateLimitBytes == UsageOf(s, user).privateLimitBytes
    ensures !IsUnlimited(UsageOf(s, user).privateLimitBytes) ==>
              UsageOf(Apply(s, t), user).privateBytes <=
              Max(UsageOf(s, user).privateBytes, UsageOf(s, user).privateLimitBytes)
  {
    hide RemoveAll, SizeSum, StoredFiles, ExtractedAll;
    match t {
      case DeleteTree(_, _, ids) => RemoveAllUsages(s, ids);
      case ResetPrivate(owner, ids) => ResetLowersTotal(s, owner, ids, user);
      case Extract(owner, section, entries) => ExtractedUsage(s, owner, section, entries, user);
      case StoreRun(owner, files) => StoredFilesUsage(s, owner, files, user);
      case _ =>
    }
  }

  // ----- The guards refuse nothing that fits -----

  /** The total after the transaction is within the limit, if there is one. */
  predicate TotalFits(s: State, user: UserId) {
    UsageOf(s, user).limitBytes <= 0 || UsageOf(s, user).totalBytes <= UsageOf(s, user).limitBytes
  }

  predicate PrivateFits(s: State, user: UserId) {
    UsageOf(s, user).privateLimitBytes <= 0 || UsageOf(s, user).privateBytes <= UsageOf(s, user).privateLimitBytes
  }

  /** The archive with every entry a file that is stored and charged. */
  function AllStored(entries: seq<ZipEntry>): seq<ZipEntry> {
    if entries == [] then []
    else AllStored(entries[..|entries| - 1]) + [entries[|entries| - 1].(isDir := false, fate := Extracted)]
  }

  lemma {:induction false} AllStoredBytes(entries: seq<ZipEntry>)
    ensures ExtractedBytes(AllStored(entries)) == UncompressedSize(entries)
    decreases |entries|
  {
    if entries != [] {
      var all := AllStored(entries);
      AllStoredBytes(entries[..|entries| - 1]);
      assert all[..|all| - 1] == AllStored(entries[..|entries| - 1]);
    }
  }

  /**
   * An upload, a growing overwrite, a generated run and an archive pass exactly
   * when what they would leave is within the limit; for an archive, were each of
   * its entries stored.
   */
  lemma GuardedExactly(s: State, t: Transaction)
    requires Applicable(s, t)
    ensures t.Upload? ==> (Guarded(s, t) <==> TotalFits(Apply(s, t), t.user))
    ensures t.Overwrite? && t.newSize > s.records[t.id].size ==> (Guarded(s, t) <==> TotalFits(Apply(s, t), t.actor))
    ensures t.StoreRun? ==> (Guarded(s, t) <==> TotalFits(Apply(s, t), t.owner))
    ensures t.Extract? ==>
              (Guarded(s, t) <==> TotalFits(ExtractedAll(s, t.user, t.section, AllStored(t.entries)), t.user))
    ensures t.Overwrite? && t.newSize <= s.records[t.id].size ==> Guarded(s, t)
  {
    hide ExtractedAll, StoredFiles, FilesSize, ExtractedBytes, AllStored, RemoveAll, SizeSum, Renamed;
    match t {
      case StoreRun(owner, files) => StoredFilesUsage(s, owner, files, owner);
      case Extract(user, section, entries) =>
        ExtractedUsage(s, user, section, AllStored(entries), user);
        AllStoredBytes(entries);
      case _ =>
    }
  }

  /** So do uploads and growing overwrites of the private section, of both limits. */
  lemma PrivateGuardedExactly(s: State, t: Transaction)
    requires Applicable(s, t)
    ensures t.Upload? && t.section == IndexLinks.Private ==>
              (PrivateGuarded(s, t) <==> PrivateFits(Apply(s, t), t.user))
    ensures t.Overwrite? && s.records[t.id].section == IndexLinks.Private && t.newSize > s.records[t.id].size ==>
              (PrivateGuarded(s, t) <==> PrivateFits(Apply(s, t), t.actor))
    ensures t.Upload? && t.section != IndexLinks.Private ==> PrivateGuarded(s, t)
    ensures t.Overwrite? && (s.records[t.id].section != IndexLinks.Private || t.newSize <= s.records[t.id].size) ==>
              PrivateGuarded(s, t)
  {
    hide ExtractedAll, StoredFiles, RemoveAll, SizeSum, Renamed;
  }

  /** A user whose usage was never written starts from nothing, under the default limit and no private one. */
  lemma FirstUpload(s: State, user: UserId, section: Section, size: nat, path: string)
    requires user !in s.usages
    ensures var t := Upload(user, section, size, path);
            && (Guarded(s, t) <==> s.defaultLimit <= 0 || size <= s.defaultLimit)
            && PrivateGuarded(s, t)
            && UsageOf(Apply(s, t), user).totalBytes == size
  {
  }

  // ----- Runs -----

  ghost predicate AllGuarded(s: State, run: seq<Transaction>)
    requires Runs(s, run)
    decreases |run|
  {
    run != [] ==> Guarded(s, run[0]) && AllGuarded(Apply(s, run[0]), run[1..])
  }

  ghost predicate AllPrivateGuarded(s: State, run: seq<Transaction>)
    requires Runs(s, run)
    decreases |run|
  {
    run != [] ==> PrivateGuarded(s, run[0]) && AllPrivateGuarded(Apply(s, run[0]), run[1..])
  }

  ghost predicate NoNegativeReset(s: State, run: seq<Transaction>, user: UserId)
    requires Runs(s, run)
    decreases |run|
  {
    run != [] ==> !NegativeReset(s, run[0], user) && NoNegativeReset(Apply(s, run[0]), run[1..], user)
  }

  /** Over a whole run the total stays within the larger of where it began and the limit. */
  lemma {:induction false} RunKeepsLimit(s: State, run: seq<Transaction>, user: UserId)
    requires Runs(s, run) && AllGuarded(s, run) && NoNegativeReset(s, run, user)
    requires !IsUnlimited(UsageOf(s, user).limitBytes)
    ensures UsageOf(Final(s, run), user).totalBytes <= Max(UsageOf(s, user).totalBytes, UsageOf(s, user).limitBytes)
    decreases |run|
  {
    hide Applicable, Apply, Guarded, UsageOf, NegativeReset;
    if run != [] {
      GuardedKeepsLimit(s, run[0], user);
      RunKeepsLimit(Apply(s, run[0]), run[1..], user);
    }
  }

  /** And the private counter within the larger of where it began and the private limit. */
  lemma {:induction false} RunKeepsPrivateLimit(s: State, run: seq<Transaction>, user: UserId)
    requires Runs(s, run) && AllPrivateGuarded(s, run)
    requires !IsUnlimited(UsageOf(s, user).privateLimitBytes)
    ensures UsageOf(Final(s, run), user).privateBytes <=
            Max(UsageOf(s, user).privateBytes, UsageOf(s, user).privateLimitBytes)
    decreases |run|
  {
    hide Applicable, Apply, PrivateGuarded, UsageOf;
    if run != [] {
      GuardedKeepsPrivateLimit(s, run[0], user);
      RunKeepsPrivateLimit(Apply(s, run[0]), run[1..], user);
    }
  }

  /** Where the ledger holds a private counter is never negative, so no reset raises the total. */
  lemma LedgerHasNoNegativeReset(s: State, t: Transaction, user: UserId)
    requires Ledger(s)
    ensures !NegativeReset(s, t, user)
  {
    hide Bytes;
    assert Of(IndexLinks.Private) in COUNTERS && Gap(s, user, Of(IndexLinks.Private)) == 0;
  }

  /** So a run that keeps the books from a state that keeps them stays within the limit without more. */
  lemma {:induction false} LedgerRunKeepsLimit(s: State, run: seq<Transaction>, user: UserId)
    requires Ledger(s) && Runs(s, run) && Honest(s, run) && AllGuarded(s, run)
             && !IsUnlimited(UsageOf(s, user).limitBytes)
    ensures UsageOf(Final(s, run), user).totalBytes <= Max(UsageOf(s, user).totalBytes, UsageOf(s, user).limitBytes)
    decreases |run|
  {
    hide Ledger, KeepsBooks, Applicable, Apply, Guarded, UsageOf, NegativeReset;
    if run != [] {
      LedgerHasNoNegativeReset(s, run[0], user);
      GuardedKeepsLimit(s, run[0], user);
      TransactionKeepsLedger(s, run[0]);
      LedgerRunKeepsLimit(Apply(s, run[0]), run[1..], user);
    }
  }
}
