/** Which storage object of a file record is offered to the index, if any. */
module RegistrationTarget {
  import opened Common
  import opened IndexLinks

  datatype Kind = Document | Image | Preview | Skip

  datatype RegistrationDecision = RegistrationDecision(
    kind: Kind,
    s3Key: string,
    contentType: ContentType,
    contentSha256: Option<Hash>,
    skipCode: Option<ErrorCode>)

  /** The record as the decision reads it; `extension` is the lower-cased path suffix. */
  datatype FileRecord = FileRecord(
    id: FileId,
    userId: UserId,
    section: Section,
    isEncrypted: bool,
    isArchived: bool,
    statusArchived: bool,
    relativePath: string,
    extension: string,
    sizeBytes: nat,
    checksumSha256: Option<Hash>)

  /** PrivateIndexRefused, or the ValueError of the decision's own checks. */
  datatype Decided = Target(decision: RegistrationDecision) | PrivateRefused | InvalidDecision

  /** The checks a decision makes on itself when it is built. */
  predicate WellFormed(d: RegistrationDecision) {
    && (d.kind == Skip <==> d.skipCode.Some?)
    && (d.kind == Preview ==> d.contentSha256.None?)
    && d.s3Key != ""
    && d.contentType != OtherType("")
  }

  function DocumentType(extension: string): Option<ContentType> {
    if extension == ".pdf" then Some(Pdf)
    else if extension == ".docx" then Some(Docx)
    else if extension == ".xlsx" then Some(Xlsx)
    else None
  }

  function ImageType(extension: string): Option<ContentType> {
    if extension == ".jpg" || extension == ".jpeg" then Some(Jpeg)
    else if extension == ".png" then Some(Png)
    else if extension == ".webp" then Some(Webp)
    else if extension == ".gif" then Some(Gif)
    else None
  }

  function TypeOf(extension: string): ContentType {
    DocumentType(extension).GetOr(ImageType(extension).GetOr(OctetStream))
  }

  function Lower(c: char): char {
    if 'A' <= c <= 'Z' then c - 'A' + 'a' else c
  }

  function LowerText(s: string): (r: string)
    ensures |r| == |s| && forall i | 0 <= i < |s| :: r[i] == Lower(s[i])
  {
    seq(|s|, i requires 0 <= i < |s| => Lower(s[i]))
  }

  predicate IsArchived(r: FileRecord) {
    || r.isArchived
    || r.statusArchived
    || EndsWith(LowerText(r.relativePath), ".zst")
  }

  function Hex(n: nat, width: nat): string {
    if width == 0 then "" else Hex(n / 16, width - 1) + ["0123456789abcdef"[n % 16]]
  }

  /** The text of a 128-bit identifier: groups of 8, 4, 4, 4 and 12 hex digits. */
  function UuidText(id: nat): string {
    Hex(Dropped(id, 24), 8) + "-" + Hex(Dropped(id, 20), 4) + "-" + Hex(Dropped(id, 16), 4) + "-"
    + Hex(Dropped(id, 12), 4) + "-" + Hex(id, 12)
  }

  /** Without its last `digits` hex digits. */
  function Dropped(n: nat, digits: nat): nat {
    if digits == 0 then n else Dropped(n / 16, digits - 1)
  }

  function PreviewObjectKey(user: UserId, file: FileId): string {
    "users/" + UuidText(user) + "/photos/previews/" + UuidText(file) + "_thumb.jpg"
  }

  function Checked(d: RegistrationDecision): Decided {
    if WellFormed(d) then Target(d) else InvalidDecision
  }

  function Send(r: FileRecord, kind: Kind, contentType: ContentType): Decided {
    Checked(RegistrationDecision(kind, r.relativePath, contentType, r.checksumSha256, None))
  }

  function SkipFor(r: FileRecord, code: ErrorCode, contentType: ContentType): Decided {
    Checked(RegistrationDecision(Skip, r.relativePath, contentType, r.checksumSha256, Some(code)))
  }

  predicate UsesPhotoPreview(r: FileRecord, maxImageBytes: int) {
    || r.extension == ".heic"
    || r.extension == ".heif"
    || (ImageType(r.extension).Some? && r.sizeBytes > maxImageBytes)
  }

  function Decide(r: FileRecord, maxImageBytes: int): Decided {
    if r.section == Private || r.isEncrypted then PrivateRefused
    else
      var contentType := TypeOf(r.extension);
      if r.section != Files && r.section != Photos then SkipFor(r, ExcludedSection, contentType)
      else if IsArchived(r) then SkipFor(r, ArchivedObject, contentType)
      else if DocumentType(r.extension).Some? && r.section == Files then Send(r, Document, contentType)
      else if ImageType(r.extension).Some? && r.sizeBytes <= maxImageBytes then Send(r, Image, contentType)
      else if r.section == Photos && UsesPhotoPreview(r, maxImageBytes) then
        Checked(RegistrationDecision(Preview, PreviewObjectKey(r.userId, r.id), Jpeg, None, None))
      else SkipFor(r, UnsupportedType, contentType)
  }
}
