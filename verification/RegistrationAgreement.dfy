/** The decision made when a record is queued, and what the sync job later does with the row. */
module RegistrationAgreement {
  import opened Common
  import opened IndexLinks
  import opened RegistrationTarget
  import opened LinkRepository
  import opened SyncSpec
  import opened SyncTermination

  lemma PreviewKeyRecognized(user: UserId, file: FileId)
    ensures IsPreviewKey(PreviewObjectKey(user, file))
  {
    hide UuidText;
    var key := PreviewObjectKey(user, file);
    var head := "users/" + UuidText(user);
    var tail := UuidText(file) + PREVIEW_SUFFIX;
    assert key == head + PREVIEW_KEY_MARKER + tail;
    assert OccursAt(key, PREVIEW_KEY_MARKER, |head|);
    assert key[|key| - |PREVIEW_SUFFIX|..] == PREVIEW_SUFFIX;
  }

  // ----- Preview keys -----

  lemma {:induction false} HexLength(n: nat, width: nat)
    ensures |Hex(n, width)| == width
  {
    if width > 0 { HexLength(n / 16, width - 1); }
  }

  /** The digits and what is above them make the number. */
  lemma {:induction false} HexTells(n: nat, m: nat, width: nat)
    requires Hex(n, width) == Hex(m, width) && Dropped(n, width) == Dropped(m, width)
    ensures n == m
    decreases width
  {
    if width > 0 {
      var h, h' := Hex(n / 16, width - 1), Hex(m / 16, width - 1);
      HexLength(n / 16, width - 1);
      HexLength(m / 16, width - 1);
      assert Hex(n, width)[..width - 1] == h && Hex(m, width)[..width - 1] == h';
      assert Hex(n, width)[width - 1] == "0123456789abcdef"[n % 16];
      assert Hex(m, width)[width - 1] == "0123456789abcdef"[m % 16];
      DigitTells(n % 16, m % 16);
      HexTells(n / 16, m / 16, width - 1);
    }
  }

  lemma DigitTells(a: nat, b: nat)
    requires a < 16 && b < 16 && "0123456789abcdef"[a] == "0123456789abcdef"[b]
    ensures a == b
  {
  }

  lemma {:induction false} DropAgain(n: nat, a: nat, b: nat)
    ensures Dropped(Dropped(n, a), b) == Dropped(n, a + b)
    decreases a
  {
    if a > 0 { DropAgain(n / 16, a - 1, b); }
  }

  /** Different identifiers of at most 128 bits have different texts. */
  lemma TextTells(a: nat, b: nat)
    requires Dropped(a, 32) == 0 && Dropped(b, 32) == 0 && UuidText(a) == UuidText(b)
    ensures a == b
  {
    hide Hex, Dropped;
    Groups(a);
    Groups(b);
    DropAgain(a, 24, 8); DropAgain(b, 24, 8);
    HexTells(Dropped(a, 24), Dropped(b, 24), 8);
    DropAgain(a, 20, 4); DropAgain(b, 20, 4);
    HexTells(Dropped(a, 20), Dropped(b, 20), 4);
    DropAgain(a, 16, 4); DropAgain(b, 16, 4);
    HexTells(Dropped(a, 16), Dropped(b, 16), 4);
    DropAgain(a, 12, 4); DropAgain(b, 12, 4);
    HexTells(Dropped(a, 12), Dropped(b, 12), 4);
    HexTells(a, b, 12);
  }

  /** Five groups of lower-case hex digits, from the most significant. */
  lemma Groups(id: nat)
    ensures var t := UuidText(id);
            && |t| == 36 && t[..8] == Hex(Dropped(id, 24), 8) && t[9..13] == Hex(Dropped(id, 20), 4)
            && t[14..18] == Hex(Dropped(id, 16), 4) && t[19..23] == Hex(Dropped(id, 12), 4)
            && t[24..] == Hex(id, 12)
  {
    hide Hex, Dropped;
    HexLength(Dropped(id, 24), 8);
    HexLength(Dropped(id, 20), 4);
    HexLength(Dropped(id, 16), 4);
    HexLength(Dropped(id, 12), 4);
    HexLength(id, 12);
  }

  lemma PartsTell(a: string, u: string, b: string, f: string, c: string, u': string, f': string)
    requires |u| == |u'| && |f| == |f'| && a + u + b + f + c == a + u' + b + f' + c
    ensures u == u' && f == f'
  {
    var s, s' := a + u + b + f + c, a + u' + b + f' + c;
    assert s[|a|..|a| + |u|] == u && s'[|a|..|a| + |u|] == u';
    var n := |a| + |u| + |b|;
    assert s[n..n + |f|] == f && s'[n..n + |f|] == f';
  }

  /** No two files, whoever owns them, share a preview key. */
  lemma PreviewKeysApart(user: UserId, file: FileId, user': UserId, file': FileId)
    requires Dropped(user, 32) == 0 && Dropped(file, 32) == 0 && Dropped(user', 32) == 0 && Dropped(file', 32) == 0
    ensures PreviewObjectKey(user, file) == PreviewObjectKey(user', file') <==> user == user' && file == file'
  {
    hide UuidText, Dropped;
    if PreviewObjectKey(user, file) == PreviewObjectKey(user', file') {
      TextLength(user);
      TextLength(user');
      TextLength(file);
      TextLength(file');
      PartsTell("users/", UuidText(user), "/photos/previews/", UuidText(file), "_thumb.jpg", UuidText(user'),
                UuidText(file'));
      TextTells(user, user');
      TextTells(file, file');
    }
  }

  lemma TextLength(id: nat)
    ensures |UuidText(id)| == 36
  {
    Groups(id);
  }

  /** The decision of a public record before its own checks. */
  lemma Proposed(r: FileRecord, maxImageBytes: int) returns (d: RegistrationDecision)
    requires r.section != Private && !r.isEncrypted
    ensures Decide(r, maxImageBytes) == Checked(d)
    ensures d.contentType != OtherType("") && (d.kind == Skip <==> d.skipCode.Some?)
    ensures d.kind == Document <==> Indexable(r) && r.section == Files && r.extension in {".pdf", ".docx", ".xlsx"}
    ensures d.kind == Image <==>
            Indexable(r) && r.extension in {".jpg", ".jpeg", ".png", ".webp", ".gif"} && r.sizeBytes <= maxImageBytes
    ensures d.kind == Preview <==>
            && Indexable(r) && r.section == Photos
            && (|| r.extension in {".heic", ".heif"}
                || (r.extension in {".jpg", ".jpeg", ".png", ".webp", ".gif"} && r.sizeBytes > maxImageBytes))
    ensures d.skipCode == Some(ExcludedSection) <==> r.section != Files && r.section != Photos
    ensures d.skipCode == Some(ArchivedObject) <==> (r.section == Files || r.section == Photos) && Packed(r)
    ensures d.skipCode.Some? ==> d.skipCode.value in {ExcludedSection, ArchivedObject, UnsupportedType}
    ensures d.kind == Preview ==> d.contentType == Jpeg
    ensures d.kind != Preview ==>
              && (d.contentType == Pdf <==> r.extension == ".pdf")
              && (d.contentType == Docx <==> r.extension == ".docx")
              && (d.contentType == Xlsx <==> r.extension == ".xlsx")
              && (d.contentType == Jpeg <==> r.extension in {".jpg", ".jpeg"})
              && (d.contentType == Png <==> r.extension == ".png")
              && (d.contentType == Webp <==> r.extension == ".webp")
              && (d.contentType == Gif <==> r.extension == ".gif")
              && d.contentType in {Pdf, Docx, Xlsx, Jpeg, Png, Webp, Gif, OctetStream}
    ensures d.kind == Preview ==> d.contentSha256.None? && d.s3Key == PreviewObjectKey(r.userId, r.id)
    ensures d.kind != Preview ==> d.s3Key == r.relativePath && d.contentSha256 == r.checksumSha256
  {
    hide IsArchived, PreviewObjectKey, Packed;
    PackedIsArchived(r);
    var contentType := TypeOf(r.extension);
    var checksum := r.checksumSha256;
    if r.section != Files && r.section != Photos {
      d := RegistrationDecision(Skip, r.relativePath, contentType, checksum, Some(ExcludedSection));
    } else if IsArchived(r) {
      d := RegistrationDecision(Skip, r.relativePath, contentType, checksum, Some(ArchivedObject));
    } else if DocumentType(r.extension).Some? && r.section == Files {
      d := RegistrationDecision(Document, r.relativePath, contentType, checksum, None);
    } else if ImageType(r.extension).Some? && r.sizeBytes <= maxImageBytes {
      d := RegistrationDecision(Image, r.relativePath, contentType, checksum, None);
    } else if UsesPreview(r, maxImageBytes) {
      d := RegistrationDecision(Preview, PreviewObjectKey(r.userId, r.id), Jpeg, None, None);
    } else {
      d := RegistrationDecision(Skip, r.relativePath, contentType, checksum, Some(UnsupportedType));
    }
  }

  /** Archived by its own account, or stored under a name that ends in `.zst`, however that is spelled. */
  predicate Packed(r: FileRecord) {
    var n := |r.relativePath|;
    || r.isArchived || r.statusArchived
    || (&& n >= 4 && r.relativePath[n - 4] == '.' && r.relativePath[n - 3] in {'z', 'Z'}
        && r.relativePath[n - 2] in {'s', 'S'} && r.relativePath[n - 1] in {'t', 'T'})
  }

  lemma PackedIsArchived(r: FileRecord)
    ensures Packed(r) <==> IsArchived(r)
  {
    hide LowerText;
    var n := |r.relativePath|;
    var lower := LowerText(r.relativePath);
    if n >= 4 {
      assert lower[n - 4..] == [lower[n - 4], lower[n - 3], lower[n - 2], lower[n - 1]];
      LowerLetter(r.relativePath[n - 4]);
      LowerLetter(r.relativePath[n - 3]);
      LowerLetter(r.relativePath[n - 2]);
      LowerLetter(r.relativePath[n - 1]);
    }
  }

  lemma LowerLetter(c: char)
    ensures Lower(c) == '.' <==> c == '.'
    ensures Lower(c) == 'z' <==> c in {'z', 'Z'}
    ensures Lower(c) == 's' <==> c in {'s', 'S'}
    ensures Lower(c) == 't' <==> c in {'t', 'T'}
  {
  }

  predicate Indexable(r: FileRecord) {
    (r.section == Files || r.section == Photos) && !Packed(r)
  }

  predicate UsesPreview(r: FileRecord, maxImageBytes: int) {
    r.section == Photos && !IsArchived(r) && UsesPhotoPreview(r, maxImageBytes)
  }

  /** Private and encrypted records are refused as such, and no other record is. */
  lemma PrivateIsRefused(r: FileRecord, maxImageBytes: int)
    ensures Decide(r, maxImageBytes).PrivateRefused? <==> r.section == Private || r.isEncrypted
  {
    if r.section != Private && !r.isEncrypted {
      var d := Proposed(r, maxImageBytes);
    }
  }

  /** A public record is refused only for want of a path, and only when the path itself would be sent. */
  lemma RefusedOnlyWithoutPath(r: FileRecord, maxImageBytes: int)
    requires r.section != Private && !r.isEncrypted
    ensures Decide(r, maxImageBytes).InvalidDecision? <==> r.relativePath == "" && !UsesPreview(r, maxImageBytes)
    ensures Decide(r, maxImageBytes).Target? ==> WellFormed(Decide(r, maxImageBytes).decision)
  {
    var d := Proposed(r, maxImageBytes);
    PreviewKeyRecognized(r.userId, r.id);
  }

  /**
   * A row queued from a decision to send is always dispatched to the matching
   * registration once its object is there, and is never dropped as unsupported;
   * a row queued from a decision to skip is never sent.
   */
  lemma JobFollowsDecision(cfg: Config, r: FileRecord, maxImageBytes: int, id: LinkId, queued: Time, now: Time,
                           a: Answers)
    requires Decide(r, maxImageBytes).Target?
    ensures var d := Decide(r, maxImageBytes).decision;
            var row := InsertedRow(id, r, d, queued);
            var s := Process(cfg, row, now, a);
            && (d.kind == Skip ==> s == Step(row, SkippedOutcome, []) && row.lastErrorCode == d.skipCode)
            && (d.kind != Skip && a.registerObject.Present? ==>
                  s.calls == [Register(d.kind != Document, r.userId, SentDigest(row, a.registerObject.digest))])
            && (d.kind != Skip && s.row.state == Skipped ==>
                  a.registerObject.Absent? && s.row.lastErrorCode == Some(PreviewMissing))
            && (d.kind == Image ==> r.sizeBytes <= maxImageBytes)
            && (d.kind == Preview ==> IsPreviewKey(row.s3Key) && row.contentSha256.None?)
            && (d.kind == Document ==> r.section == Files)
            && (d.kind != Skip ==> Due(row, now)) && (d.kind == Skip ==> !Due(row, now))
            && row.fileRecordId == Some(r.id) && row.userId == r.userId && row.section == r.section
            && row.s3Key == d.s3Key && row.contentType == d.contentType && row.contentSha256 == d.contentSha256
            && row.ragFileId.None? && row.attempts == 0 && row.createdAt == row.updatedAt == queued
            && row.nextAttemptAt.None?
  {
    hide IsPreviewKey, PreviewObjectKey, IsArchived, Backoff;
    PreviewKeyRecognized(r.userId, r.id);
  }

  /** A missing preview is waited for until the attempts run out, then skipped, without one remote call. */
  lemma {:induction false} MissingPreviewIsWaitedFor(cfg: Config, row: Link, moves: seq<Move>)
    requires row.state == Pending && row.ragFileId.None? && row.contentSha256.None?
    requires IsImage(row) && !IsDocument(row) && IsPreviewKey(row.s3Key)
    requires forall i | 0 <= i < |moves| :: moves[i].a.registerObject == Absent
    requires row.attempts + |moves| <= cfg.maxAttempts
    ensures var last := AfterMoves(cfg, row, moves);
            && (row.attempts + |moves| < cfg.maxAttempts ==>
                  last.state == Pending && last.attempts == row.attempts + |moves| && last.ragFileId.None?)
            && (row.attempts + |moves| == cfg.maxAttempts && moves != [] ==>
                  last.state == Skipped && last.attempts == cfg.maxAttempts
                  && last.lastErrorCode == Some(PreviewMissing) && last.nextAttemptAt.None?)
    decreases |moves|
  {
    if moves != [] {
      var now, a := moves[0].now, moves[0].a;
      var s := Process(cfg, row, now, a);
      assert s == Miss(cfg, row, now, []);
      if |moves| > 1 {
        MissingPreviewIsWaitedFor(cfg, s.row, moves[1..]);
      } else {
        assert moves[1..] == [];
      }
    }
  }
}
