/**
 * Rows against the store of the remote index: through lost replies, outages and
 * retries no vectors are orphaned and no row owns two entries.
 */
module RagOwnership {
  import opened Common
  import opened IndexLinks
  import opened RegistrationTarget
  import opened LinkRepository
  import opened SyncSpec

  /** The index refuses a second live entry with the same owner and digest. */
  datatype Fingerprint = Fingerprint(user: UserId, hash: Hash)

  /** Live entries, every id ever given out, and the row each id was made for. */
  datatype Rag = Rag(live: map<RagId, Fingerprint>, used: set<RagId>, madeFor: map<RagId, LinkId>)

  datatype World = World(rows: map<LinkId, Link>, rag: Rag)

  /** What a registration of the row sends; `body` is the digest of the row's stored object. */
  function Identity(row: Link, body: LinkId -> Hash): Fingerprint {
    Fingerprint(row.userId, SentDigest(row, body(row.id)))
  }

  function Without(rag: Rag, id: RagId): Rag {
    rag.(live := rag.live - {id})
  }

  function With(rag: Rag, id: RagId, f: Fingerprint, row: LinkId): Rag {
    Rag(rag.live[id := f], rag.used + {id}, rag.madeFor[id := row])
  }

  predicate IsDuplicate(a: Answer<Card>) {
    a.Http? && a.error.status == 409 && a.error.code == Some(DuplicateFile)
  }

  /** A new entry is made; the reply carries its id, or is lost. */
  ghost predicate Accepted(rag: Rag, row: LinkId, f: Fingerprint, a: Answer<Card>, rag': Rag) {
    exists id | id !in rag.used ::
      rag' == With(rag, id, f, row) && !IsDuplicate(a) && (a.Reply? ==> a.value.fileId == id)
  }

  /** The entry exists already: the store is unchanged and only a duplicate answer names an id. */
  ghost predicate RefusedAsDuplicate(rag: Rag, f: Fingerprint, a: Answer<Card>, rag': Rag) {
    exists id | id in rag.live && rag.live[id] == f ::
      rag' == rag && !a.Reply? && (IsDuplicate(a) && a.error.detailFileId.Some? ==> a.error.detailFileId == Some(id))
  }

  /** What the index may do with one call; any answer but a success may hide a completed operation. */
  ghost predicate CallServed(rag: Rag, row: LinkId, call: Call, a: Answers, rag': Rag) {
    match call
    case GetFile(id) => rag' == rag && (a.getFile.Reply? ==> a.getFile.value.fileId == id)
    case Rekey(id) => rag' == rag && (a.rekey.Reply? ==> a.rekey.value.fileId == id)
    case DeleteVectors(id) => rag' == Without(rag, id) || (rag' == rag && !ConfirmsGone(a.deleteVectors))
    case Register(_, user, digest) =>
      var f := Fingerprint(user, digest);
      if f in rag.live.Values then RefusedAsDuplicate(rag, f, a.register, rag')
      else Accepted(rag, row, f, a.register, rag')
           || (rag' == rag && !a.register.Reply? && !IsDuplicate(a.register))
  }

  ghost predicate Served(rag: Rag, row: LinkId, calls: seq<Call>, a: Answers, rag': Rag)
    decreases |calls|
  {
    if calls == [] then rag' == rag
    else exists mid :: CallServed(rag, row, calls[0], a, mid) && Served(mid, row, calls[1..], a, rag')
  }

  /** The object reader tells the truth about the stored object. */
  predicate Faithful(row: Link, a: Answers, body: LinkId -> Hash) {
    && (a.registerObject.Present? && row.contentSha256.None? ==> a.registerObject.digest == body(row.id))
    && (a.rekeyObject.Present? && row.contentSha256.None? ==> a.rekeyObject.digest == body(row.id))
  }

  /** One sync step on row `l`. */
  ghost predicate WorldStep(cfg: Config, body: LinkId -> Hash, w: World, l: LinkId, now: Time, a: Answers, w': World) {
    && l in w.rows
    && Faithful(w.rows[l], a, body)
    && var s := Process(cfg, w.rows[l], now, a);
       w'.rows == w.rows[l := s.row] && Served(w.rag, l, s.calls, a, w'.rag)
  }

  // ----- The invariant -----

  /** The store never holds two live entries with one fingerprint. */
  ghost predicate OneEach(rag: Rag) {
    && rag.live.Keys <= rag.used && rag.live.Keys <= rag.madeFor.Keys
    && forall i, j | i in rag.live && j in rag.live && rag.live[i] == rag.live[j] :: i == j
  }

  /**
   * Every live entry has its row, and for the rows of `kept` it is stored in its
   * row or is what that row's next registration will find.
   */
  ghost predicate NoOrphan(w: World, body: LinkId -> Hash, kept: iset<LinkId>)
    requires w.rag.live.Keys <= w.rag.madeFor.Keys
  {
    forall id | id in w.rag.live ::
      && w.rag.madeFor[id] in w.rows
      && var row := w.rows[w.rag.madeFor[id]];
         w.rag.madeFor[id] in kept ==>
           row.ragFileId == Some(id) || (row.ragFileId.None? && w.rag.live[id] == Identity(row, body))
  }

  /** A row of `kept` stores only ids made for it, and no other row stores one of those. */
  ghost predicate OwnIds(w: World, kept: iset<LinkId>) {
    forall l | l in w.rows && w.rows[l].ragFileId.Some? ::
      && w.rows[l].ragFileId.value in w.rag.used
      && w.rows[l].ragFileId.value in w.rag.madeFor
      && var m := w.rag.madeFor[w.rows[l].ragFileId.value];
         l in kept || m in kept ==> m == l
  }

  /** No other row sends the fingerprint of a row of `kept`, and no live entry of another row has it. */
  ghost predicate Distinct(w: World, body: LinkId -> Hash, kept: iset<LinkId>)
    requires w.rag.live.Keys <= w.rag.madeFor.Keys
  {
    && (forall l, m |
          l in kept && l in w.rows && m in w.rows && Identity(w.rows[l], body) == Identity(w.rows[m], body) ::
          l == m)
    && (forall id, l | id in w.rag.live && l in w.rows && w.rag.live[id] == Identity(w.rows[l], body) ::
          l in kept || w.rag.madeFor[id] in kept ==> w.rag.madeFor[id] == l)
  }

  ghost predicate Inv(w: World, body: LinkId -> Hash, kept: iset<LinkId>) {
    && Keyed(w.rows) && OneEach(w.rag) && NoOrphan(w, body, kept) && OwnIds(w, kept) && Distinct(w, body, kept)
  }

  // ----- Small steps -----

  /** Columns other than the id and what is sent do not matter. */
  lemma NeutralWrite(w: World, body: LinkId -> Hash, kept: iset<LinkId>, l: LinkId, row: Link)
    requires Inv(w, body, kept) && l in w.rows && row.id == l
    requires row.ragFileId == w.rows[l].ragFileId && Identity(row, body) == Identity(w.rows[l], body)
    ensures Inv(w.(rows := w.rows[l := row]), body, kept)
  {
  }

  /** Once the stored entry is not live the id can be dropped. */
  lemma DropId(w: World, body: LinkId -> Hash, kept: iset<LinkId>, l: LinkId, row: Link)
    requires Inv(w, body, kept) && l in w.rows && row.id == l && row.ragFileId.None?
    requires w.rows[l].ragFileId.Some? && w.rows[l].ragFileId.value !in w.rag.live
    requires Identity(row, body) == Identity(w.rows[l], body)
    ensures Inv(w.(rows := w.rows[l := row]), body, kept)
  {
  }

  /** A row without an id may store the entry that carries its fingerprint. */
  lemma StoreId(w: World, body: LinkId -> Hash, kept: iset<LinkId>, l: LinkId, row: Link)
    requires Inv(w, body, kept) && l in w.rows && row.id == l && row.ragFileId.Some?
    requires w.rows[l].ragFileId.None? && Identity(row, body) == Identity(w.rows[l], body)
    requires row.ragFileId.value in w.rag.live && w.rag.live[row.ragFileId.value] == Identity(row, body)
    ensures Inv(w.(rows := w.rows[l := row]), body, kept)
  {
  }

  lemma DeletionServed(w: World, body: LinkId -> Hash, kept: iset<LinkId>, l: LinkId, a: Answers, rag': Rag)
    requires Inv(w, body, kept) && l in w.rows && w.rows[l].ragFileId.Some?
    requires CallServed(w.rag, l, DeleteVectors(w.rows[l].ragFileId.value), a, rag')
    ensures Inv(w.(rag := rag'), body, kept)
    ensures ConfirmsGone(a.deleteVectors) ==> w.rows[l].ragFileId.value !in rag'.live
  {
  }

  lemma AcceptedKeeps(w: World, body: LinkId -> Hash, kept: iset<LinkId>, l: LinkId, id: RagId)
    requires Inv(w, body, kept) && l in w.rows && w.rows[l].ragFileId.None?
    requires id !in w.rag.used && Identity(w.rows[l], body) !in w.rag.live.Values
    ensures Inv(w.(rag := With(w.rag, id, Identity(w.rows[l], body), l)), body, kept)
  {
    forall i | i in w.rag.live ensures w.rag.live[i] != Identity(w.rows[l], body) {
      assert w.rag.live[i] in w.rag.live.Values;
    }
  }

  /** The id a registration answers with, if it answers with one. */
  function AnsweredId(a: Answer<Card>): Option<RagId> {
    if a.Reply? then Some(a.value.fileId)
    else if IsDuplicate(a) then a.error.detailFileId
    else None
  }

  /** After a registration was served the fingerprint is live under the id any answer names. */
  lemma RegistrationServed(w: World, body: LinkId -> Hash, kept: iset<LinkId>, l: LinkId, call: Call, a: Answers,
                           rag': Rag)
    requires Inv(w, body, kept) && l in w.rows && w.rows[l].ragFileId.None?
    requires call.Register? && Fingerprint(call.user, call.digest) == Identity(w.rows[l], body)
    requires CallServed(w.rag, l, call, a, rag')
    ensures Inv(w.(rag := rag'), body, kept)
    ensures AnsweredId(a.register).Some? ==>
              AnsweredId(a.register).value in rag'.live
              && rag'.live[AnsweredId(a.register).value] == Identity(w.rows[l], body)
    ensures forall id | id in w.rag.live :: id in rag'.live && rag'.live[id] == w.rag.live[id]
  {
    hide NoOrphan, OwnIds, Distinct, Keyed;
    var f := Identity(w.rows[l], body);
    if f in w.rag.live.Values {
      assert rag' == w.rag && w.(rag := rag') == w;
    } else if rag' == w.rag {
      assert w.(rag := rag') == w;
    } else {
      var id :| id !in w.rag.used && rag' == With(w.rag, id, f, l) && !IsDuplicate(a.register)
                && (a.register.Reply? ==> a.register.value.fileId == id);
      AcceptedKeeps(w, body, kept, l, id);
    }
  }

  // ----- Steps -----

  /** The columns this invariant reads. */
  predicate Kept(row: Link, after: Link) {
    && after.id == row.id && after.userId == row.userId
    && after.ragFileId == row.ragFileId && after.contentSha256 == row.contentSha256
  }

  lemma RetryKept(cfg: Config, row: Link, now: Time, code: ErrorCode, calls: seq<Call>)
    ensures Kept(row, Retry(cfg, row, now, code, calls).row) && Retry(cfg, row, now, code, calls).calls == calls
  {
  }

  lemma MissKept(cfg: Config, row: Link, now: Time, calls: seq<Call>)
    ensures Kept(row, Miss(cfg, row, now, calls).row) && Miss(cfg, row, now, calls).calls == calls
  {
  }

  /** What a registration step sends and stores, whatever the rest of the row. */
  lemma RegisterReads(cfg: Config, body: LinkId -> Hash, row: Link, now: Time, a: Answers, made: seq<Call>)
    requires row.ragFileId.None? && Faithful(row, a, body)
    ensures var s := RegisterStep(cfg, row, now, a, made);
            && s.row.id == row.id && Identity(s.row, body) == Identity(row, body)
            && (|| (s.calls == made && s.row.ragFileId.None?)
                || (|s.calls| == |made| + 1 && made <= s.calls && s.calls[|made|].Register?
                    && Fingerprint(s.calls[|made|].user, s.calls[|made|].digest) == Identity(row, body)
                    && s.row.ragFileId == AnsweredId(a.register)))
  {
    if a.registerObject.Absent? {
      MissKept(cfg, row, now, made);
    } else if a.registerObject.Present? && (IsDocument(row) || IsImage(row)) {
      SentReads(cfg, body, row, now, a, made, SentDigest(row, a.registerObject.digest));
    }
  }

  lemma SentReads(cfg: Config, body: LinkId -> Hash, row: Link, now: Time, a: Answers, made: seq<Call>, digest: Hash)
    requires row.ragFileId.None? && Faithful(row, a, body) && (IsDocument(row) || IsImage(row))
    requires a.registerObject.Present? && digest == SentDigest(row, a.registerObject.digest)
    ensures var s := RegisterStep(cfg, row, now, a, made);
            && s.row.id == row.id && s.row.userId == row.userId
            && (s.row.contentSha256 == row.contentSha256 || s.row.contentSha256 == Some(digest))
            && digest == SentDigest(row, body(row.id))
            && s.calls == made + [Register(!IsDocument(row), row.userId, digest)]
            && s.row.ragFileId == AnsweredId(a.register)
  {
    var calls := made + [Register(!IsDocument(row), row.userId, digest)];
    match a.register
    case Crash =>
    case Reply(card) =>
    case Unavailable(code) => RetryKept(cfg, row, now, OutageCode(code), calls);
    case Http(e) =>
  }

  lemma RegisterOwns(cfg: Config, body: LinkId -> Hash, kept: iset<LinkId>, w: World, l: LinkId, now: Time, a: Answers,
                     made: seq<Call>, rag': Rag)
    requires Inv(w, body, kept) && l in w.rows && w.rows[l].ragFileId.None? && Faithful(w.rows[l], a, body)
    requires made <= RegisterStep(cfg, w.rows[l], now, a, made).calls
    requires Served(w.rag, l, RegisterStep(cfg, w.rows[l], now, a, made).calls[|made|..], a, rag')
    ensures Inv(World(w.rows[l := RegisterStep(cfg, w.rows[l], now, a, made).row], rag'), body, kept)
  {
    var s := RegisterStep(cfg, w.rows[l], now, a, made);
    RegisterReads(cfg, body, w.rows[l], now, a, made);
    FinishRegistration(body, kept, w, l, s.row, a, s.calls[|made|..], rag');
  }

  lemma FinishRegistration(body: LinkId -> Hash, kept: iset<LinkId>, w: World, l: LinkId, row: Link, a: Answers,
                           calls: seq<Call>, rag': Rag)
    requires Inv(w, body, kept) && l in w.rows && w.rows[l].ragFileId.None?
    requires row.id == w.rows[l].id && Identity(row, body) == Identity(w.rows[l], body)
    requires Served(w.rag, l, calls, a, rag')
    requires || (calls == [] && row.ragFileId.None?)
             || (|calls| == 1 && calls[0].Register? && row.ragFileId == AnsweredId(a.register)
                 && Fingerprint(calls[0].user, calls[0].digest) == Identity(row, body))
    ensures Inv(World(w.rows[l := row], rag'), body, kept)
  {
    assert w.rows[l].id == l;
    if calls != [] {
      var mid :| CallServed(w.rag, l, calls[0], a, mid) && Served(mid, l, calls[1..], a, rag');
      RegistrationServed(w, body, kept, l, calls[0], a, rag');
    }
    if row.ragFileId.Some? {
      StoreId(w.(rag := rag'), body, kept, l, row);
    } else {
      NeutralWrite(w.(rag := rag'), body, kept, l, row);
    }
  }

  lemma RegisterCalls(cfg: Config, row: Link, now: Time, a: Answers, made: seq<Call>)
    ensures made <= RegisterStep(cfg, row, now, a, made).calls
  {
  }

  lemma ReindexOwns(cfg: Config, body: LinkId -> Hash, kept: iset<LinkId>, w: World, l: LinkId, now: Time, a: Answers,
                    made: seq<Call>, rag': Rag)
    requires Inv(w, body, kept) && l in w.rows && Faithful(w.rows[l], a, body)
    requires made <= ReindexStep(cfg, w.rows[l], now, a, made).calls
    requires Served(w.rag, l, ReindexStep(cfg, w.rows[l], now, a, made).calls[|made|..], a, rag')
    ensures Inv(World(w.rows[l := ReindexStep(cfg, w.rows[l], now, a, made).row], rag'), body, kept)
  {
    var row := w.rows[l];
    if row.ragFileId.None? {
      RegisterOwns(cfg, body, kept, w, l, now, a, made, rag');
    } else {
      var s := ReindexStep(cfg, row, now, a, made);
      var call := DeleteVectors(row.ragFileId.value);
      var more := made + [call];
      ReindexReads(cfg, row, now, a, made);
      assert s.calls[|made|..][0] == call && s.calls[|made|..][1..] == s.calls[|more|..];
      var mid :| CallServed(w.rag, l, call, a, mid) && Served(mid, l, s.calls[|more|..], a, rag');
      DeletionServed(w, body, kept, l, a, mid);
      var w1 := w.(rag := mid);
      if ConfirmsGone(a.deleteVectors) {
        var cleared := ClearedRow(row, now);
        DropId(w1, body, kept, l, cleared);
        var w2 := w1.(rows := w1.rows[l := cleared]);
        RegisterOwns(cfg, body, kept, w2, l, now, a, more, rag');
        assert w2.rows[l := s.row] == w.rows[l := s.row];
      } else {
        NeutralWrite(w1, body, kept, l, s.row);
      }
    }
  }

  /** Reindexing a row with an id deletes first; it registers only after the deletion was confirmed. */
  lemma ReindexReads(cfg: Config, row: Link, now: Time, a: Answers, made: seq<Call>)
    requires row.ragFileId.Some?
    ensures var s := ReindexStep(cfg, row, now, a, made);
            var more := made + [DeleteVectors(row.ragFileId.value)];
            && more <= s.calls
            && (ConfirmsGone(a.deleteVectors) ==> s == RegisterStep(cfg, ClearedRow(row, now), now, a, more))
            && (!ConfirmsGone(a.deleteVectors) ==> s.calls == more && Kept(row, s.row))
  {
    var more := made + [DeleteVectors(row.ragFileId.value)];
    RegisterCalls(cfg, ClearedRow(row, now), now, a, more);
    if a.deleteVectors.Unavailable? {
      RetryKept(cfg, row, now, OutageCode(a.deleteVectors.code), more);
    }
  }

  predicate ContentChangedAnswer(a: Answers) {
    a.rekeyObject.Present? && a.rekey.Http? && a.rekey.error.status == 409
      && a.rekey.error.code == Some(ContentChangedError)
  }

  /** A re-key keeps what the row sends, and keeps the id when the reply names the entry that was asked about. */
  lemma RekeyReads(cfg: Config, body: LinkId -> Hash, row: Link, now: Time, a: Answers)
    requires row.ragFileId.Some? && Faithful(row, a, body) && !ContentChangedAnswer(a)
    requires a.rekey.Reply? && a.rekeyObject.Present? ==> Some(a.rekey.value.fileId) == row.ragFileId
    ensures var s := RekeyStep(cfg, row, now, a);
            && s.row.id == row.id && s.row.ragFileId == row.ragFileId
            && Identity(s.row, body) == Identity(row, body)
            && s.calls == if a.rekeyObject.Present? then [Rekey(row.ragFileId.value)] else []
  {
    MissKept(cfg, row, now, []);
    if a.rekey.Unavailable? {
      RetryKept(cfg, row, now, OutageCode(a.rekey.code), [Rekey(row.ragFileId.value)]);
    }
  }

  lemma RekeyOwns(cfg: Config, body: LinkId -> Hash, kept: iset<LinkId>, w: World, l: LinkId, now: Time, a: Answers,
                  rag': Rag)
    requires Inv(w, body, kept) && l in w.rows && w.rows[l].ragFileId.Some? && Faithful(w.rows[l], a, body)
    requires Served(w.rag, l, RekeyStep(cfg, w.rows[l], now, a).calls, a, rag')
    ensures Inv(World(w.rows[l := RekeyStep(cfg, w.rows[l], now, a).row], rag'), body, kept)
  {
    var row := w.rows[l];
    if ContentChangedAnswer(a) {
      RekeyThenReindexOwns(cfg, body, kept, w, l, now, a, rag');
    } else if a.rekeyObject.Present? {
      var s := RekeyStep(cfg, row, now, a);
      assert s.calls == [Rekey(row.ragFileId.value)] by { RekeyCalls(cfg, row, now, a); }
      var mid :| CallServed(w.rag, l, s.calls[0], a, mid) && Served(mid, l, s.calls[1..], a, rag');
      RekeyReads(cfg, body, row, now, a);
      NeutralWrite(w, body, kept, l, s.row);
    } else {
      RekeyReads(cfg, body, row, now, a);
      NeutralWrite(w, body, kept, l, RekeyStep(cfg, row, now, a).row);
    }
  }

  lemma RekeyCalls(cfg: Config, row: Link, now: Time, a: Answers)
    requires row.ragFileId.Some? && a.rekeyObject.Present? && !ContentChangedAnswer(a)
    ensures RekeyStep(cfg, row, now, a).calls == [Rekey(row.ragFileId.value)]
  {
  }

  lemma RekeyThenReindexOwns(cfg: Config, body: LinkId -> Hash, kept: iset<LinkId>, w: World, l: LinkId, now: Time,
                             a: Answers, rag': Rag)
    requires Inv(w, body, kept) && l in w.rows && w.rows[l].ragFileId.Some? && Faithful(w.rows[l], a, body)
    requires ContentChangedAnswer(a)
    requires Served(w.rag, l, RekeyStep(cfg, w.rows[l], now, a).calls, a, rag')
    ensures Inv(World(w.rows[l := RekeyStep(cfg, w.rows[l], now, a).row], rag'), body, kept)
  {
    var row := w.rows[l];
    var call := Rekey(row.ragFileId.value);
    var changed := ContentChangedRow(row, now);
    var s := ReindexStep(cfg, changed, now, a, [call]);
    assert RekeyStep(cfg, row, now, a) == s;
    ReindexCalls(cfg, changed, now, a, [call]);
    assert s.calls[0] == call && s.calls[1..] == s.calls[|[call]|..];
    var mid :| CallServed(w.rag, l, call, a, mid) && Served(mid, l, s.calls[1..], a, rag');
    NeutralWrite(w, body, kept, l, changed);
    var w1 := w.(rows := w.rows[l := changed]);
    ReindexOwns(cfg, body, kept, w1, l, now, a, [call], rag');
    assert w1.rows[l := s.row] == w.rows[l := s.row];
  }

  lemma ReindexCalls(cfg: Config, row: Link, now: Time, a: Answers, made: seq<Call>)
    ensures made <= ReindexStep(cfg, row, now, a, made).calls
  {
    RegisterCalls(cfg, row, now, a, made);
    if row.ragFileId.Some? {
      RegisterCalls(cfg, ClearedRow(row, now), now, a, made + [DeleteVectors(row.ragFileId.value)]);
    }
  }

  lemma PollReads(cfg: Config, row: Link, now: Time, a: Answers)
    requires row.ragFileId.Some?
    ensures var s := PollStep(cfg, row, now, a);
            && s.calls == [GetFile(row.ragFileId.value)]
            && (a.getFile.Reply? ==> Kept(row.(ragFileId := s.row.ragFileId), s.row)
                                     && (s.row.ragFileId == row.ragFileId
                                         || s.row.ragFileId == Some(a.getFile.value.fileId)))
            && (!a.getFile.Reply? ==> Kept(row, s.row))
  {
    if a.getFile.Unavailable? {
      RetryKept(cfg, row, now, OutageCode(a.getFile.code), [GetFile(row.ragFileId.value)]);
    }
  }

  lemma PollOwns(cfg: Config, body: LinkId -> Hash, kept: iset<LinkId>, w: World, l: LinkId, now: Time, a: Answers,
                 rag': Rag)
    requires Inv(w, body, kept) && l in w.rows && w.rows[l].ragFileId.Some?
    requires Served(w.rag, l, PollStep(cfg, w.rows[l], now, a).calls, a, rag')
    ensures Inv(World(w.rows[l := PollStep(cfg, w.rows[l], now, a).row], rag'), body, kept)
  {
    var s := PollStep(cfg, w.rows[l], now, a);
    PollReads(cfg, w.rows[l], now, a);
    var mid :| CallServed(w.rag, l, s.calls[0], a, mid) && Served(mid, l, s.calls[1..], a, rag');
    assert mid == w.rag == rag';
    NeutralWrite(w, body, kept, l, s.row);
  }

  lemma RemoveOwns(cfg: Config, body: LinkId -> Hash, kept: iset<LinkId>, w: World, l: LinkId, now: Time, a: Answers,
                   rag': Rag)
    requires Inv(w, body, kept) && l in w.rows
    requires Served(w.rag, l, RemoveStep(cfg, w.rows[l], now, a).calls, a, rag')
    ensures Inv(World(w.rows[l := RemoveStep(cfg, w.rows[l], now, a).row], rag'), body, kept)
    ensures w.rows[l].ragFileId.Some? && ConfirmsGone(a.deleteVectors) ==> w.rows[l].ragFileId.value !in rag'.live
    ensures w.rows[l].ragFileId.None? ==> rag' == w.rag
  {
    var s := RemoveStep(cfg, w.rows[l], now, a);
    RemoveReads(cfg, body, w.rows[l], now, a);
    if w.rows[l].ragFileId.Some? {
      var mid :| CallServed(w.rag, l, s.calls[0], a, mid) && Served(mid, l, s.calls[1..], a, rag');
      DeletionServed(w, body, kept, l, a, mid);
    }
    NeutralWrite(w.(rag := rag'), body, kept, l, s.row);
  }

  lemma RemoveReads(cfg: Config, body: LinkId -> Hash, row: Link, now: Time, a: Answers)
    ensures var s := RemoveStep(cfg, row, now, a);
            && s.row.id == row.id && s.row.ragFileId == row.ragFileId && Identity(s.row, body) == Identity(row, body)
            && s.calls == if row.ragFileId.Some? then [DeleteVectors(row.ragFileId.value)] else []
  {
  }

  /** Every sync step on every row keeps the invariant, whatever is answered or lost. */
  lemma StepKeepsOwnership(cfg: Config, body: LinkId -> Hash, kept: iset<LinkId>, w: World, l: LinkId, now: Time,
                           a: Answers, w': World)
    requires Inv(w, body, kept) && WorldStep(cfg, body, w, l, now, a, w')
    ensures Inv(w', body, kept)
  {
    var row := w.rows[l];
    var s := Process(cfg, row, now, a);
    assert s.calls[0..] == s.calls;
    assert w' == World(w.rows[l := s.row], w'.rag);
    match row.state
    case Removed => RemoveOwns(cfg, body, kept, w, l, now, a, w'.rag);
    case Archived => RemoveOwns(cfg, body, kept, w, l, now, a, w'.rag);
    case ReindexPending => ReindexOwns(cfg, body, kept, w, l, now, a, [], w'.rag);
    case Submitted =>
      if row.ragFileId.None? { RegisterOwns(cfg, body, kept, w, l, now, a, [], w'.rag); }
      else { PollOwns(cfg, body, kept, w, l, now, a, w'.rag); }
    case Pending =>
      if row.ragFileId.None? { RegisterOwns(cfg, body, kept, w, l, now, a, [], w'.rag); }
      else { RekeyOwns(cfg, body, kept, w, l, now, a, w'.rag); }
    case Indexed => assert w'.rows == w.rows;
    case Failed => assert w'.rows == w.rows;
    case Skipped => assert w'.rows == w.rows;
  }

  // ----- Runs and consequences -----

  /** Each world follows from the one before by one sync step on some row. */
  ghost predicate Run(cfg: Config, body: LinkId -> Hash, ws: seq<World>) {
    forall i | 0 <= i < |ws| - 1 :: Steps(cfg, body, ws[i], ws[i + 1])
  }

  ghost predicate Steps(cfg: Config, body: LinkId -> Hash, w: World, w': World) {
    exists l, now, a :: WorldStep(cfg, body, w, l, now, a, w')
  }

  lemma {:induction false} RunKeepsOwnership(cfg: Config, body: LinkId -> Hash, kept: iset<LinkId>, ws: seq<World>,
                                             k: nat)
    requires Run(cfg, body, ws) && k < |ws| && Inv(ws[0], body, kept)
    ensures Inv(ws[k], body, kept)
  {
    if k > 0 {
      RunKeepsOwnership(cfg, body, kept, ws, k - 1);
      assert Steps(cfg, body, ws[k - 1], ws[k - 1 + 1]);
      var l, now, a :| WorldStep(cfg, body, ws[k - 1], l, now, a, ws[k]);
      StepKeepsOwnership(cfg, body, kept, ws[k - 1], l, now, a, ws[k]);
    }
  }

  /** At every point of every run a row of `kept` has at most one live entry, and no other row stores its id. */
  lemma NoRowOwnsTwo(cfg: Config, body: LinkId -> Hash, kept: iset<LinkId>, ws: seq<World>, k: nat)
    requires Run(cfg, body, ws) && k < |ws| && Inv(ws[0], body, kept)
    ensures var w := ws[k];
            && w.rag.live.Keys <= w.rag.madeFor.Keys
            && (forall i, j | i in w.rag.live && j in w.rag.live && w.rag.madeFor[i] == w.rag.madeFor[j] ::
                  w.rag.madeFor[i] in kept ==> i == j)
            && (forall l, m | l in w.rows && m in w.rows && w.rows[l].ragFileId == w.rows[m].ragFileId
                              && w.rows[l].ragFileId.Some? :: l in kept ==> l == m)
  {
    RunKeepsOwnership(cfg, body, kept, ws, k);
  }

  /**
   * A live entry whose reply was lost is exactly what the next answered
   * registration adopts, and no second one is made.
   */
  lemma LostEntryIsAdopted(cfg: Config, body: LinkId -> Hash, kept: iset<LinkId>, w: World, l: LinkId, now: Time,
                           a: Answers, rag': Rag, lost: RagId)
    requires Inv(w, body, kept) && l in kept && l in w.rows && w.rows[l].ragFileId.None? && Faithful(w.rows[l], a, body)
    requires lost in w.rag.live && w.rag.madeFor[lost] == l
    requires Served(w.rag, l, RegisterStep(cfg, w.rows[l], now, a, []).calls, a, rag')
    ensures rag' == w.rag
    ensures var s := RegisterStep(cfg, w.rows[l], now, a, []);
            && (s.row.ragFileId.None? || s.row.ragFileId == Some(lost))
            && (s.calls != [] && AnsweredId(a.register).Some? ==> s.row.ragFileId == Some(lost))
  {
    var s := RegisterStep(cfg, w.rows[l], now, a, []);
    RegisterReads(cfg, body, w.rows[l], now, a, []);
    if s.calls != [] {
      var mid :| CallServed(w.rag, l, s.calls[0], a, mid) && Served(mid, l, s.calls[1..], a, rag');
      assert w.rag.live[lost] in w.rag.live.Values;
      assert s.calls[1..] == [];
    }
  }

  // ----- Where the request path can lose an entry -----

  ghost predicate HasLive(w: World, l: LinkId) {
    exists id | id in w.rag.live && id in w.rag.madeFor :: w.rag.madeFor[id] == l
  }

  /**
   * A removal that settles leaves nothing behind in the index exactly when the
   * row knew its id or there was no entry: a registration whose reply was lost
   * before the file was deleted is never cleaned up.
   */
  lemma SettledRemovalIsComplete(cfg: Config, body: LinkId -> Hash, kept: iset<LinkId>, w: World, l: LinkId, now: Time,
                                 a: Answers, w': World)
    requires Inv(w, body, kept) && l in kept && WorldStep(cfg, body, w, l, now, a, w')
    requires w.rows[l].state == Removed || w.rows[l].state == Archived
    requires Process(cfg, w.rows[l], now, a).outcome == Transitioned
    ensures w'.rag.live.Keys <= w'.rag.madeFor.Keys
    ensures !HasLive(w', l) <==> w.rows[l].ragFileId.Some? || !HasLive(w, l)
  {
    StepKeepsOwnership(cfg, body, kept, w, l, now, a, w');
    RemoveOwns(cfg, body, kept, w, l, now, a, w'.rag);
    var row := w.rows[l];
    if row.ragFileId.Some? {
      assert ConfirmsGone(a.deleteVectors);
      assert w'.rows[l].ragFileId == row.ragFileId by { RemoveReads(cfg, body, row, now, a); }
    }
  }

  lemma LostRegistration(cfg: Config, now: Time) returns (row: Link, a: Answers)
    requires cfg.maxAttempts > 1
    ensures row.id == 0 && row.userId == 0 && row.contentSha256 == Some("h") && row.ragFileId.None?
    ensures a.register == Unavailable(None) && a.registerObject == Present("h", 1) && a.rekeyObject == Present("h", 1)
    ensures var s := Process(cfg, row, now, a);
            && s.calls == [Register(false, 0, "h")]
            && s.row.id == 0 && s.row.ragFileId.None? && s.row.contentSha256.Some?
  {
    hide Backoff;
    row := Link(0, Some(0), 0, Files, "users/0/files/a.pdf", Some("h"), Pdf, None, Pending, 0, None, None, now, now);
    a := Answers(Present("h", 1), Present("h", 1), Unavailable(None), Unavailable(None), Unavailable(None),
                 Unavailable(None));
  }

  lemma RemovedWithoutIdSettles(cfg: Config, row: Link, now: Time, a: Answers)
    requires row.state == Removed && row.ragFileId.None?
    ensures Process(cfg, row, now, a) == Step(SettledRow(row, now, Removed), Transitioned, [])
  {
  }

  /** The input of the gap above: registered with the reply lost, deleted, settled, and still live. */
  lemma LostReplyThenDeleteLeaks(cfg: Config, body: LinkId -> Hash, kept: iset<LinkId>, now: Time)
    returns (w0: World, w1: World, marked: World, w2: World, a: Answers)
    requires cfg.maxAttempts > 1
    ensures Inv(w0, body, kept) && WorldStep(cfg, body, w0, 0, now, a, w1)
    ensures 0 in w1.rows && marked == w1.(rows := w1.rows[0 := RemovedMark(w1.rows[0], now)])
    ensures WorldStep(cfg, body, marked, 0, now, a, w2)
    ensures 0 in w2.rows && w2.rows[0].state == Removed && w2.rows[0].nextAttemptAt == Some(CONFIRMED_REMOVAL_AT)
    ensures w2.rag.live.Keys <= w2.rag.madeFor.Keys && HasLive(w2, 0)
  {
    hide Process, Backoff;
    var row;
    row, a := LostRegistration(cfg, now);
    w0 := World(map[0 := row], Rag(map[], {}, map[]));
    var call := Register(false, 0, "h");
    var rag := With(w0.rag, 7, Fingerprint(0, "h"), 0);
    assert Accepted(w0.rag, 0, Fingerprint(0, "h"), a.register, rag);
    assert CallServed(w0.rag, 0, call, a, rag) && Served(rag, 0, [call][1..], a, rag);
    var s := Process(cfg, row, now, a);
    assert s.calls == [call];
    w1 := World(w0.rows[0 := s.row], rag);
    marked := w1.(rows := w1.rows[0 := RemovedMark(w1.rows[0], now)]);
    w2 := World(marked.rows[0 := SettledRow(marked.rows[0], now, Removed)], rag);
    RemovedWithoutIdSettles(cfg, marked.rows[0], now, a);
    assert Served(rag, 0, [], a, rag) && Process(cfg, marked.rows[0], now, a).calls == [];
    assert Faithful(marked.rows[0], a, body);
    assert 7 in w2.rag.live && w2.rag.madeFor[7] == 0;
  }

  /**
   * An overwrite keeps every live entry accounted for exactly when the row knows
   * its id, or has no entry, or the new content has the old fingerprint.
   */
  lemma OverwriteKeepsOwnership(body: LinkId -> Hash, kept: iset<LinkId>, w: World, l: LinkId, d: RegistrationDecision,
                                now: Time)
    requires Inv(w, body, kept) && l in kept && l in w.rows
    ensures var w' := w.(rows := w.rows[l := ContentChangedMark(w.rows[l], d, now)]);
            NoOrphan(w', body, kept) <==>
              w.rows[l].ragFileId.Some? || !HasLive(w, l) || Identity(w'.rows[l], body) == Identity(w.rows[l], body)
  {
    var w' := w.(rows := w.rows[l := ContentChangedMark(w.rows[l], d, now)]);
    if w.rows[l].ragFileId.None? && HasLive(w, l) {
      var id :| id in w.rag.live && w.rag.madeFor[id] == l;
      assert w.rag.live[id] == Identity(w.rows[l], body);
    }
  }
}
