/**
 * Rows against the remote index over runs of everything that happens to rows:
 * sync steps, request-path marks, overwrites and new files.
 */
module RagRuns {
  import opened Common
  import opened IndexLinks
  import opened RegistrationTarget
  import opened LinkRepository
  import opened SyncSpec
  import opened RowInvariant
  import opened RagOwnership

  /** The rows, the index, and the digest of each row's stored object. */
  datatype State = State(world: World, body: LinkId -> Hash)

  datatype Event = Happened(l: LinkId, ev: RowEvent, now: Time) | Added(row: Link)

  predicate IsStep(ev: RowEvent) {
    ev.Synced? || ev.Notified?
  }

  ghost predicate Follows(cfg: Config, s: State, e: Event, s': State) {
    match e
    case Happened(l, ev, now) =>
      && l in s.world.rows
      && if IsStep(ev) then s'.body == s.body && WorldStep(cfg, s.body, s.world, l, now, ev.a, s'.world)
         else
           && s'.world == s.world.(rows := s.world.rows[l := AfterEvent(cfg, s.world.rows[l], ev, now)])
           && forall m :: (m == l && ev.ContentChanged?) || s'.body(m) == s.body(m)
    case Added(row) =>
      && row.id !in s.world.rows && row.ragFileId.None?
      && s'.world == s.world.(rows := s.world.rows[row.id := row])
      && forall m :: m == row.id || s'.body(m) == s.body(m)
  }

  ghost predicate Run(cfg: Config, ss: seq<State>, es: seq<Event>) {
    |ss| == |es| + 1 && forall i | 0 <= i < |es| :: Follows(cfg, ss[i], es[i], ss[i + 1])
  }

  /** The bytes of the files of `kept` are no other file's of their users: each of their fingerprints has one row. */
  ghost predicate OneFileEach(owner: Fingerprint -> LinkId, kept: iset<LinkId>, s: State) {
    forall l | l in s.world.rows :: Belongs(owner, kept, Identity(s.world.rows[l], s.body), l)
  }

  /** A fingerprint that is a row of `kept`'s, or is owned by one, is of its owner. */
  ghost predicate Belongs(owner: Fingerprint -> LinkId, kept: iset<LinkId>, f: Fingerprint, l: LinkId) {
    l in kept || owner(f) in kept ==> owner(f) == l
  }

  // ----- Registrations and their answers -----

  predicate Registers(calls: seq<Call>) {
    exists i | 0 <= i < |calls| :: calls[i].Register?
  }

  /** The event makes a registration call for row l. */
  predicate RegistersRow(cfg: Config, s: State, e: Event, l: LinkId) {
    && e.Happened? && e.l == l && IsStep(e.ev) && l in s.world.rows
    && Registers(Process(cfg, s.world.rows[l], e.now, e.ev.a).calls)
  }

  /** The row's latest registration call so far ended without an id. */
  ghost predicate Unanswered(cfg: Config, ss: seq<State>, es: seq<Event>, k: nat, l: LinkId)
    requires k <= |es| < |ss|
  {
    k > 0 && if RegistersRow(cfg, ss[k - 1], es[k - 1], l) then AnsweredId(es[k - 1].ev.a.register).None?
             else Unanswered(cfg, ss, es, k - 1, l)
  }

  /** Nothing is live for a row that stores no id. */
  ghost predicate Accounted(w: World, l: LinkId) {
    l in w.rows && w.rows[l].ragFileId.None? ==> !HasLive(w, l)
  }

  /** Every live entry was made for the row its fingerprint belongs to. */
  ghost predicate MadeForOwner(owner: Fingerprint -> LinkId, kept: iset<LinkId>, rag: Rag) {
    forall id | id in rag.live :: id in rag.madeFor && Belongs(owner, kept, rag.live[id], rag.madeFor[id])
  }

  // ----- What a step asks for -----

  /** A registration sends the row's fingerprint and stores the id it was answered with. */
  lemma RegisterCalled(cfg: Config, body: LinkId -> Hash, row: Link, now: Time, a: Answers, made: seq<Call>)
    requires row.ragFileId.None? && Faithful(row, a, body) && !Registers(made)
    ensures var s := RegisterStep(cfg, row, now, a, made);
            && (Registers(s.calls) ==> s.row.ragFileId == AnsweredId(a.register))
            && forall call | call in s.calls && call.Register? ::
              Fingerprint(call.user, call.digest) == Identity(row, body)
  {
    hide RegisterStep, AnsweredId, Identity;
    RegisterReads(cfg, body, row, now, a, made);
    var s := RegisterStep(cfg, row, now, a, made);
    assert forall call | call in made :: !call.Register?;
    if s.calls != made {
      assert s.calls == made + [s.calls[|made|]];
    }
  }

  lemma ReindexCalled(cfg: Config, body: LinkId -> Hash, row: Link, now: Time, a: Answers, made: seq<Call>)
    requires Faithful(row, a, body) && !Registers(made)
    ensures var s := ReindexStep(cfg, row, now, a, made);
            && (Registers(s.calls) ==> s.row.ragFileId == AnsweredId(a.register))
            && forall call | call in s.calls && call.Register? ::
              Fingerprint(call.user, call.digest) == Identity(row, body)
  {
    hide RegisterStep, AnsweredId;
    if row.ragFileId.None? {
      RegisterCalled(cfg, body, row, now, a, made);
    } else {
      var more := made + [DeleteVectors(row.ragFileId.value)];
      ReindexReads(cfg, row, now, a, made);
      assert forall call | call in more :: call in made || !call.Register?;
      RegisterCalled(cfg, body, ClearedRow(row, now), now, a, more);
    }
  }

  lemma StepCalled(cfg: Config, body: LinkId -> Hash, row: Link, now: Time, a: Answers)
    requires Faithful(row, a, body)
    ensures var s := Process(cfg, row, now, a);
            && (Registers(s.calls) ==> s.row.ragFileId == AnsweredId(a.register))
            && forall call | call in s.calls && call.Register? ::
              Fingerprint(call.user, call.digest) == Identity(row, body)
  {
    hide RegisterStep, ReindexStep, RekeyStep, PollStep, RemoveStep, AnsweredId, Identity;
    match row.state
    case Removed => RemoveReads(cfg, body, row, now, a);
    case Archived => RemoveReads(cfg, body, row, now, a);
    case ReindexPending => ReindexCalled(cfg, body, row, now, a, []);
    case Submitted =>
      if row.ragFileId.None? { RegisterCalled(cfg, body, row, now, a, []); } else { PollReads(cfg, row, now, a); }
    case Pending =>
      if row.ragFileId.None? {
        RegisterCalled(cfg, body, row, now, a, []);
      } else {
        RekeyCalled(cfg, body, row, now, a);
      }
    case Indexed =>
    case Failed =>
    case Skipped =>
  }

  lemma RekeyCalled(cfg: Config, body: LinkId -> Hash, row: Link, now: Time, a: Answers)
    requires Faithful(row, a, body) && row.ragFileId.Some?
    ensures var s := RekeyStep(cfg, row, now, a);
            && (Registers(s.calls) ==> s.row.ragFileId == AnsweredId(a.register))
            && forall call | call in s.calls && call.Register? ::
              Fingerprint(call.user, call.digest) == Identity(row, body)
  {
    hide ReindexStep, AnsweredId;
    if ContentChangedAnswer(a) {
      ReindexCalled(cfg, body, ContentChangedRow(row, now), now, a, [Rekey(row.ragFileId.value)]);
    } else if a.rekeyObject.Present? {
      RekeyCalls(cfg, row, now, a);
    } else {
      MissKept(cfg, row, now, []);
    }
  }

  // ----- What the index may have done -----

  /** Live entries after a row's calls were live before or were made for the row by a registration. */
  lemma {:induction false} ServedLive(rag: Rag, l: LinkId, calls: seq<Call>, a: Answers, rag': Rag, id: RagId)
    requires Served(rag, l, calls, a, rag') && id in rag'.live
    ensures || (id in rag.live && rag'.live[id] == rag.live[id]
                && (id in rag.used && id in rag.madeFor ==> id in rag'.madeFor && rag'.madeFor[id] == rag.madeFor[id]))
            || (id !in rag.used && id in rag'.madeFor && rag'.madeFor[id] == l
                && exists call | call in calls && call.Register? ::
                  rag'.live[id] == Fingerprint(call.user, call.digest))
    decreases |calls|
  {
    if calls != [] {
      var mid :| CallServed(rag, l, calls[0], a, mid) && Served(mid, l, calls[1..], a, rag');
      ServedLive(mid, l, calls[1..], a, rag', id);
      UsedGrows(rag, l, calls[0], a, mid);
    }
  }

  lemma UsedGrows(rag: Rag, l: LinkId, call: Call, a: Answers, rag': Rag)
    requires CallServed(rag, l, call, a, rag')
    ensures rag.used <= rag'.used
  {
  }

  lemma StaysGone(rag: Rag, l: LinkId, calls: seq<Call>, a: Answers, rag': Rag, id: RagId)
    requires Served(rag, l, calls, a, rag') && id in rag.used && id !in rag.live
    ensures id !in rag'.live
  {
    if id in rag'.live { ServedLive(rag, l, calls, a, rag', id); }
  }

  /** A confirmed deletion is final: ids are not given out twice. */
  lemma {:induction false} ServedDeleted(rag: Rag, l: LinkId, calls: seq<Call>, a: Answers, rag': Rag, id: RagId)
    requires Served(rag, l, calls, a, rag') && id in rag.used
    requires DeleteVectors(id) in calls && ConfirmsGone(a.deleteVectors)
    ensures id !in rag'.live
    decreases |calls|
  {
    var mid :| CallServed(rag, l, calls[0], a, mid) && Served(mid, l, calls[1..], a, rag');
    UsedGrows(rag, l, calls[0], a, mid);
    if calls[0] == DeleteVectors(id) {
      StaysGone(mid, l, calls[1..], a, rag', id);
    } else {
      ServedDeleted(mid, l, calls[1..], a, rag', id);
    }
  }

  // ----- One event -----

  /** A sync step touches the accounts of its own row only, and only an unanswered registration can upset them. */
  lemma StepKeepsAccounts(cfg: Config, body: LinkId -> Hash, kept: iset<LinkId>, w: World, l: LinkId, now: Time,
                          a: Answers, w': World, m: LinkId)
    requires Inv(w, body, kept) && WorldStep(cfg, body, w, l, now, a, w') && m in w.rows
    requires m in kept
    requires if m == l && Registers(Process(cfg, w.rows[l], now, a).calls) then AnsweredId(a.register).Some?
             else Accounted(w, m)
    ensures Accounted(w', m)
  {
    hide Process, Served, AnsweredId, Identity;
    var calls := Process(cfg, w.rows[l], now, a).calls;
    StepKeepsOwnership(cfg, body, kept, w, l, now, a, w');
    if w'.rows[m].ragFileId.None? && HasLive(w', m) && !(m == l && Registers(calls)) {
      var id :| id in w'.rag.live && id in w'.rag.madeFor && w'.rag.madeFor[id] == m;
      ServedLive(w.rag, l, calls, a, w'.rag, id);
      WasLive(w, l, m, calls, w'.rag, id);
      LiveIsStored(w, body, kept, m, id);
      IdClearedOnlyWhenGone(cfg, w.rows[l], now, a);
      ServedDeleted(w.rag, l, calls, a, w'.rag, id);
    } else if m == l && Registers(calls) {
      StepCalled(cfg, body, w.rows[l], now, a);
    }
  }

  lemma WasLive(w: World, l: LinkId, m: LinkId, calls: seq<Call>, rag': Rag, id: RagId)
    requires OneEach(w.rag) && !(m == l && Registers(calls)) && id in rag'.madeFor && rag'.madeFor[id] == m
    requires || (id in w.rag.live
                 && (id in w.rag.used && id in w.rag.madeFor ==> rag'.madeFor[id] == w.rag.madeFor[id]))
             || (rag'.madeFor[id] == l && exists call :: call in calls && call.Register?)
    ensures id in w.rag.live && id in w.rag.madeFor && w.rag.madeFor[id] == m
  {
  }

  lemma LiveIsStored(w: World, body: LinkId -> Hash, kept: iset<LinkId>, m: LinkId, id: RagId)
    requires Inv(w, body, kept) && m in kept && m in w.rows && Accounted(w, m) && id in w.rag.live
             && w.rag.madeFor[id] == m
    ensures w.rows[m].ragFileId == Some(id) && id in w.rag.used
  {
    assert HasLive(w, m);
  }

  lemma StepKeepsOwners(cfg: Config, owner: Fingerprint -> LinkId, body: LinkId -> Hash, kept: iset<LinkId>, w: World,
                        l: LinkId, now: Time, a: Answers, w': World)
    requires Inv(w, body, kept) && WorldStep(cfg, body, w, l, now, a, w') && MadeForOwner(owner, kept, w.rag)
    requires Belongs(owner, kept, Identity(w.rows[l], body), l)
    ensures MadeForOwner(owner, kept, w'.rag)
  {
    hide Process, Served, AnsweredId, Identity;
    var calls := Process(cfg, w.rows[l], now, a).calls;
    StepCalled(cfg, body, w.rows[l], now, a);
    forall id | id in w'.rag.live 
      ensures id in w'.rag.madeFor && Belongs(owner, kept, w'.rag.live[id], w'.rag.madeFor[id])
    {
      ServedLive(w.rag, l, calls, a, w'.rag, id);
    }
  }

  /** Fingerprints with one row each keep rows and live entries apart. */
  lemma OwnersApart(owner: Fingerprint -> LinkId, kept: iset<LinkId>, s: State)
    requires OneFileEach(owner, kept, s) && MadeForOwner(owner, kept, s.world.rag)
    ensures s.world.rag.live.Keys <= s.world.rag.madeFor.Keys && Distinct(s.world, s.body, kept)
  {
    hide Identity;
  }

  /** Marks leave the columns and the index alone; an overwrite is safe for a row with nothing unaccounted. */
  lemma MarkKeepsOwnership(cfg: Config, owner: Fingerprint -> LinkId, kept: iset<LinkId>, s: State, e: Event, s': State)
    requires Follows(cfg, s, e, s') && e.Happened? && !IsStep(e.ev) && Inv(s.world, s.body, kept)
    requires MadeForOwner(owner, kept, s.world.rag) && OneFileEach(owner, kept, s')
    requires e.ev.ContentChanged? && e.l in kept ==> Accounted(s.world, e.l)
    ensures Inv(s'.world, s'.body, kept)
    ensures forall m | Accounted(s.world, m) :: Accounted(s'.world, m)
  {
    var row := s.world.rows[e.l];
    MarksKeepTheId(cfg, row, e.ev, e.now);
    MarkedColumns(cfg, row, e.ev, e.now);
    OwnersApart(owner, kept, s');
    forall id | id in s.world.rag.live && s.world.rag.madeFor[id] == e.l && e.l in kept && e.ev.ContentChanged?
      ensures row.ragFileId == Some(id)
    {
      LiveIsStored(s.world, s.body, kept, e.l, id);
    }
  }

  lemma MarkedColumns(cfg: Config, row: Link, ev: RowEvent, now: Time)
    requires !IsStep(ev)
    ensures AfterEvent(cfg, row, ev, now).id == row.id && AfterEvent(cfg, row, ev, now).userId == row.userId
    ensures !ev.ContentChanged? ==> Kept(row, AfterEvent(cfg, row, ev, now))
  {
  }

  lemma AdditionKeepsOwnership(cfg: Config, owner: Fingerprint -> LinkId, kept: iset<LinkId>, s: State, e: Event,
                               s': State)
    requires Follows(cfg, s, e, s') && e.Added? && Inv(s.world, s.body, kept)
    requires MadeForOwner(owner, kept, s.world.rag) && OneFileEach(owner, kept, s')
    ensures Inv(s'.world, s'.body, kept)
    ensures forall m | Accounted(s.world, m) :: Accounted(s'.world, m)
  {
    OwnersApart(owner, kept, s');
  }

  // ----- Runs -----

  /** No row has an id yet and the index holds nothing. */
  ghost predicate Start(s: State) {
    Keyed(s.world.rows) && s.world.rag.live == map[] && forall l | l in s.world.rows :: s.world.rows[l].ragFileId.None?
  }

  /** The file of row l is overwritten only while the row's latest registration call, if any, is answered. */
  ghost predicate CleanOverwrites(cfg: Config, ss: seq<State>, es: seq<Event>, l: LinkId)
    requires |es| < |ss|
  {
    forall i | 0 <= i < |es| && es[i].Happened? && es[i].l == l && es[i].ev.ContentChanged? ::
      !Unanswered(cfg, ss, es, i, l)
  }

  /** Everything live is accounted for, except what an unanswered registration may have left. */
  ghost predicate InOrder(cfg: Config, owner: Fingerprint -> LinkId, kept: iset<LinkId>, ss: seq<State>, es: seq<Event>,
                          k: nat)
    requires k <= |es| < |ss|
  {
    && Inv(ss[k].world, ss[k].body, kept) && MadeForOwner(owner, kept, ss[k].world.rag)
    && forall l | l in kept :: Unanswered(cfg, ss, es, k, l) || Accounted(ss[k].world, l)
  }

  /**
   * Along every run from an empty index, through steps, lost replies, marks,
   * overwrites and new files: for rows whose own overwrites are clean, whatever
   * happens to the others, ownership holds, and those whose latest registration
   * call was answered are accounted for.
   */
  lemma {:induction false} RunKeepsAccounts(cfg: Config, owner: Fingerprint -> LinkId, kept: iset<LinkId>,
                                            ss: seq<State>, es: seq<Event>, k: nat)
    requires Run(cfg, ss, es) && k <= |es| && Start(ss[0])
    requires forall i | 0 <= i < |ss| :: OneFileEach(owner, kept, ss[i])
    requires forall l | l in kept :: CleanOverwrites(cfg, ss, es, l)
    ensures InOrder(cfg, owner, kept, ss, es, k)
  {
    hide Inv, Follows, MadeForOwner, OneFileEach, Accounted, Start;
    if k == 0 {
      StartInOrder(owner, kept, ss[0]);
    } else {
      RunKeepsAccounts(cfg, owner, kept, ss, es, k - 1);
      assert Follows(cfg, ss[k - 1], es[k - 1], ss[k - 1 + 1]);
      EventKeepsOrder(cfg, owner, kept, ss, es, k);
    }
  }

  lemma StartInOrder(owner: Fingerprint -> LinkId, kept: iset<LinkId>, s: State)
    requires Start(s) && OneFileEach(owner, kept, s)
    ensures Inv(s.world, s.body, kept) && MadeForOwner(owner, kept, s.world.rag) && forall l :: Accounted(s.world, l)
  {
    OwnersApart(owner, kept, s);
  }

  lemma EventKeepsOrder(cfg: Config, owner: Fingerprint -> LinkId, kept: iset<LinkId>, ss: seq<State>, es: seq<Event>,
                        k: nat)
    requires 0 < k <= |es| < |ss| && InOrder(cfg, owner, kept, ss, es, k - 1)
             && Follows(cfg, ss[k - 1], es[k - 1], ss[k])
    requires forall l | l in kept :: CleanOverwrites(cfg, ss, es, l)
    requires OneFileEach(owner, kept, ss[k - 1]) && OneFileEach(owner, kept, ss[k])
    ensures InOrder(cfg, owner, kept, ss, es, k)
  {
    hide Inv, MadeForOwner, OneFileEach, Accounted, WorldStep, Registers, AnsweredId;
    var s, e, s' := ss[k - 1], es[k - 1], ss[k];
    if e.Added? {
      AdditionKeepsOwnership(cfg, owner, kept, s, e, s');
    } else if !IsStep(e.ev) {
      MarkKeepsOwnership(cfg, owner, kept, s, e, s');
    } else {
      StepKeepsOrder(cfg, owner, kept, ss, es, k);
    }
  }

  lemma StepKeepsOrder(cfg: Config, owner: Fingerprint -> LinkId, kept: iset<LinkId>, ss: seq<State>, es: seq<Event>,
                       k: nat)
    requires 0 < k <= |es| < |ss| && InOrder(cfg, owner, kept, ss, es, k - 1)
             && Follows(cfg, ss[k - 1], es[k - 1], ss[k])
    requires es[k - 1].Happened? && IsStep(es[k - 1].ev) && OneFileEach(owner, kept, ss[k - 1])
    ensures InOrder(cfg, owner, kept, ss, es, k)
  {
    hide Inv, MadeForOwner, Accounted, Process, Registers, AnsweredId;
    var s, e, s' := ss[k - 1], es[k - 1], ss[k];
    StepKeepsOwnership(cfg, s.body, kept, s.world, e.l, e.now, e.ev.a, s'.world);
    StepKeepsOwners(cfg, owner, s.body, kept, s.world, e.l, e.now, e.ev.a, s'.world);
    forall m | m in kept && m in s.world.rows && !Unanswered(cfg, ss, es, k, m) ensures Accounted(s'.world, m) {
      StepKeepsAccounts(cfg, s.body, kept, s.world, e.l, e.now, e.ev.a, s'.world, m);
    }
    forall m | m !in s.world.rows ensures Accounted(s'.world, m) {
      NoSuchRow(s'.world, m);
    }
  }

  lemma NoSuchRow(w: World, m: LinkId)
    requires m !in w.rows
    ensures Accounted(w, m)
  {
  }

  /** So a removal that settles leaves nothing in the index if the row's latest registration call was answered. */
  lemma AnsweredRemovalIsComplete(cfg: Config, owner: Fingerprint -> LinkId, ss: seq<State>, es: seq<Event>, k: nat)
    requires Run(cfg, ss, es) && k < |es| && Start(ss[0])
    requires es[k].Happened? && IsStep(es[k].ev) && es[k].l in ss[k].world.rows
    requires forall i | 0 <= i < |ss| :: OneFileEach(owner, iset{es[k].l}, ss[i])
    requires CleanOverwrites(cfg, ss, es, es[k].l)
    requires var row := ss[k].world.rows[es[k].l];
             (row.state == Removed || row.state == Archived)
               && Process(cfg, row, es[k].now, es[k].ev.a).outcome == Transitioned
    requires !Unanswered(cfg, ss, es, k, es[k].l)
    ensures !HasLive(ss[k + 1].world, es[k].l)
  {
    hide Inv, MadeForOwner, Process, HasLive, Start, OneFileEach, Unanswered;
    var kept := iset{es[k].l};
    RunKeepsAccounts(cfg, owner, kept, ss, es, k);
    assert Follows(cfg, ss[k], es[k], ss[k + 1]);
    SettledRemovalIsComplete(cfg, ss[k].body, kept, ss[k].world, es[k].l, es[k].now, es[k].ev.a, ss[k + 1].world);
  }

  /** Row l is marked removed, and a step settles it. */
  ghost predicate DeletedAfter(cfg: Config, body: LinkId -> Hash, w: World, l: LinkId, later: Time, a: Answers,
                               w': World) {
    && l in w.rows
    && var marked := w.(rows := w.rows[l := RemovedMark(w.rows[l], later)]);
       && WorldStep(cfg, body, marked, l, later, a, w')
       && Process(cfg, marked.rows[l], later, a).outcome == Transitioned
  }

  /** Whatever the index did with the step's calls, a settled removal after it leaves nothing. */
  ghost predicate NeverLeaks(cfg: Config, body: LinkId -> Hash, w: World, l: LinkId, now: Time, a: Answers) {
    forall w1, later, a', w2 |
      WorldStep(cfg, body, w, l, now, a, w1) && DeletedAfter(cfg, body, w1, l, later, a', w2) :: !HasLive(w2, l)
  }

  /**
   * The converse for one registration of a row with nothing in the index: a
   * deletion after it is complete whatever the index did exactly when the call
   * was answered with an id.
   */
  lemma OnlyAnsweredNeverLeaks(cfg: Config, body: LinkId -> Hash, kept: iset<LinkId>, w: World, l: LinkId, now: Time,
                               a: Answers)
    requires Inv(w, body, kept) && l in kept && l in w.rows && w.rows[l].ragFileId.None? && !HasLive(w, l)
             && Faithful(w.rows[l], a, body)
    requires Registers(Process(cfg, w.rows[l], now, a).calls) && !IsDuplicate(a.register)
    ensures NeverLeaks(cfg, body, w, l, now, a) <==> AnsweredId(a.register).Some?
  {
    hide Inv, Process, HasLive, Faithful, Served, AnsweredId, Identity, Registers, IsDuplicate, RemovedMark;
    if AnsweredId(a.register).Some? {
      forall w1, later, a', w2 | WorldStep(cfg, body, w, l, now, a, w1) && DeletedAfter(cfg, body, w1, l, later, a', w2)
        ensures !HasLive(w2, l)
      {
        StepCalled(cfg, body, w.rows[l], now, a);
        StepKeepsOwnership(cfg, body, kept, w, l, now, a, w1);
        StoredIsDeleted(cfg, body, kept, w1, l, later, a', w2);
      }
    } else {
      var w1, w2, a' := LeakingRun(cfg, body, kept, w, l, now, a);
    }
  }

  function Overwritten(w: World, l: LinkId, d: RegistrationDecision, later: Time): World
    requires l in w.rows
  {
    w.(rows := w.rows[l := ContentChangedMark(w.rows[l], d, later)])
  }

  /** Whatever the index did with the step's calls, an overwrite with new content after it orphans nothing. */
  ghost predicate NeverOrphans(cfg: Config, body: LinkId -> Hash, kept: iset<LinkId>, w: World, l: LinkId, now: Time,
                               a: Answers) {
    forall w1, d, later |
      && WorldStep(cfg, body, w, l, now, a, w1) && l in w1.rows && w1.rag.live.Keys <= w1.rag.madeFor.Keys
      && Identity(Overwritten(w1, l, d, later).rows[l], body) != Identity(w1.rows[l], body) ::
      NoOrphan(Overwritten(w1, l, d, later), body, kept)
  }

  /** The like for an overwrite: it is safe whatever the index did exactly when the call was answered with an id. */
  lemma OnlyAnsweredNeverOrphans(cfg: Config, body: LinkId -> Hash, kept: iset<LinkId>, w: World, l: LinkId, now: Time,
                                 a: Answers)
    requires Inv(w, body, kept) && l in kept && l in w.rows && w.rows[l].ragFileId.None? && !HasLive(w, l)
             && Faithful(w.rows[l], a, body)
    requires Registers(Process(cfg, w.rows[l], now, a).calls) && !IsDuplicate(a.register)
    ensures NeverOrphans(cfg, body, kept, w, l, now, a) <==> AnsweredId(a.register).Some?
  {
    hide Inv, Process, HasLive, Faithful, Served, AnsweredId, Identity, Registers, IsDuplicate, ContentChangedMark,
         NoOrphan;
    forall w1, d, later |
      && WorldStep(cfg, body, w, l, now, a, w1) && l in w1.rows && w1.rag.live.Keys <= w1.rag.madeFor.Keys
      && Identity(Overwritten(w1, l, d, later).rows[l], body) != Identity(w1.rows[l], body)
      ensures AnsweredId(a.register).Some? ==> NoOrphan(Overwritten(w1, l, d, later), body, kept)
    {
      StepCalled(cfg, body, w.rows[l], now, a);
      StepKeepsOwnership(cfg, body, kept, w, l, now, a, w1);
      OverwriteKeepsOwnership(body, kept, w1, l, d, later);
    }
    if AnsweredId(a.register).None? {
      var w1, w2, a' := LeakingRun(cfg, body, kept, w, l, now, a);
      StepKeepsOwnership(cfg, body, kept, w, l, now, a, w1);
      var d := OtherContent(body, w1, l, now);
      OverwriteKeepsOwnership(body, kept, w1, l, d, now);
      InvHasMakers(w1, body, kept);
    }
  }

  lemma InvHasMakers(w: World, body: LinkId -> Hash, kept: iset<LinkId>)
    requires Inv(w, body, kept)
    ensures w.rag.live.Keys <= w.rag.madeFor.Keys
  {
  }

  lemma OtherContent(body: LinkId -> Hash, w: World, l: LinkId, now: Time) returns (d: RegistrationDecision)
    requires l in w.rows
    ensures Identity(Overwritten(w, l, d, now).rows[l], body) != Identity(w.rows[l], body)
  {
    var digest := Identity(w.rows[l], body).hash + "x";
    d := RegistrationDecision(Document, "", Pdf, Some(digest), None);
  }

  lemma StoredIsDeleted(cfg: Config, body: LinkId -> Hash, kept: iset<LinkId>, w: World, l: LinkId, later: Time,
                        a: Answers, w': World)
    requires Inv(w, body, kept) && l in kept && l in w.rows && w.rows[l].ragFileId.Some?
             && DeletedAfter(cfg, body, w, l, later, a, w')
    ensures !HasLive(w', l)
  {
    hide Process, Served, NoOrphan, OneEach, OwnIds, Distinct;
    var row := RemovedMark(w.rows[l], later);
    NeutralWrite(w, body, kept, l, row);
    SettledRemovalIsComplete(cfg, body, kept, w.(rows := w.rows[l := row]), l, later, a, w');
  }

  lemma {:induction false} UnusedId(used: set<RagId>) returns (id: RagId)
    ensures forall i | i in used :: i < id
  {
    if used == {} {
      id := 0;
    } else {
      var i :| i in used;
      var rest := UnusedId(used - {i});
      id := Max(rest, i + 1);
      assert forall j | j in used :: j == i || j in used - {i};
    }
  }

  /** A row without an id that registers makes that one call. */
  lemma OnlyCall(cfg: Config, body: LinkId -> Hash, row: Link, now: Time, a: Answers)
    requires row.ragFileId.None? && Faithful(row, a, body) && Registers(Process(cfg, row, now, a).calls)
    ensures var s := Process(cfg, row, now, a);
            && |s.calls| == 1 && s.calls[0].Register?
            && Fingerprint(s.calls[0].user, s.calls[0].digest) == Identity(row, body)
  {
    hide RegisterStep, AnsweredId, Identity;
    RegisterReads(cfg, body, row, now, a, []);
  }

  /** The index makes the entry, the answer is lost, and the deletion knows nothing of it. */
  lemma LeakingRun(cfg: Config, body: LinkId -> Hash, kept: iset<LinkId>, w: World, l: LinkId, now: Time, a: Answers)
    returns (w1: World, w2: World, a': Answers)
    requires Inv(w, body, kept) && l in kept && l in w.rows && w.rows[l].ragFileId.None? && !HasLive(w, l)
             && Faithful(w.rows[l], a, body)
    requires Registers(Process(cfg, w.rows[l], now, a).calls) && !IsDuplicate(a.register)
             && AnsweredId(a.register).None?
    ensures WorldStep(cfg, body, w, l, now, a, w1) && DeletedAfter(cfg, body, w1, l, now, a', w2) && HasLive(w2, l)
    ensures l in w1.rows && w1.rows[l].ragFileId.None? && HasLive(w1, l)
  {
    hide Process, Registers, Identity;
    var row := w.rows[l];
    var s := Process(cfg, row, now, a);
    OnlyCall(cfg, body, row, now, a);
    StepCalled(cfg, body, row, now, a);
    var id := UnusedId(w.rag.used);
    var rag := With(w.rag, id, Identity(row, body), l);
    NoTwin(w, body, kept, l);
    assert id !in w.rag.used;
    assert Accepted(w.rag, l, Identity(row, body), a.register, rag);
    assert CallServed(w.rag, l, s.calls[0], a, rag) && Served(rag, l, s.calls[1..], a, rag);
    w1 := World(w.rows[l := s.row], rag);
    a' := a.(registerObject := Absent, rekeyObject := Absent);
    var marked := RemovedMark(s.row, now);
    RemovedWithoutIdSettles(cfg, marked, now, a');
    assert Served(rag, l, [], a', rag);
    w2 := World(w1.rows[l := marked][l := SettledRow(marked, now, Removed)], rag);
    assert id in w2.rag.live && w2.rag.madeFor[id] == l;
  }

  lemma NoTwin(w: World, body: LinkId -> Hash, kept: iset<LinkId>, l: LinkId)
    requires Inv(w, body, kept) && l in kept && l in w.rows && !HasLive(w, l)
    ensures Identity(w.rows[l], body) !in w.rag.live.Values
  {
    hide Identity;
  }
}
