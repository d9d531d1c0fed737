/** Renaming by path: what a directory rename makes of the records, and of the objects below it. */
module DirectoryRename {
  import opened LikePattern
  import opened ObjectStoreSpec
  import opened StorageLedger
  import opened StoragePaths
  import IndexLinks
  import ObjectStore

  /** The records a directory rename of a user's section looks at; in SHARED everybody's. */
  predicate InScope(r: Record, user: UserId, section: Section) {
    r.section == section && (section == IndexLinks.Shared || r.owner == user)
  }

  /** `update_relative_path_prefix`: the new path of what the pattern selects. */
  function Repathed(from: string, to: string, path: string): string {
    if StartsLike(from + [SLASH], path) then to + From(path, |from|) else path
  }

  /** The new prefix in place of the old one, for what lies below it. */
  function WithPrefix(from: string, to: string, path: string): string {
    if from + [SLASH] <= path then to + path[|from|..] else path
  }

  /** The update: COMMITTED records in scope only. */
  function NewPaths(records: Records, user: UserId, section: Section, from: string, to: string): map<FileId, string> {
    map id | id in records && records[id].status == Committed && InScope(records[id], user, section)
             && StartsLike(from + [SLASH], records[id].path)
      :: to + From(records[id].path, |from|)
  }

  lemma RepathedWithoutWildcard(from: string, to: string, path: string)
    requires !HasWildcard(from) && '\\' !in from
    ensures Repathed(from, to, path) == WithPrefix(from, to, path)
  {
    LiteralPrefix(from + [SLASH], path);
  }

  /**
   * The update changes the prefix of just what lies below, on every path, exactly
   * when the old path has no wildcard.
   */
  lemma RepathedFollows(from: string, to: string)
    requires '\\' !in from && from != to
    ensures (forall path :: Repathed(from, to, path) == WithPrefix(from, to, path)) <==> !HasWildcard(from)
  {
    if HasWildcard(from) {
      var i :| 0 <= i < |from| && (from[i] == '_' || from[i] == '%');
      var other := if from[i := 'x'] == to then 'y' else 'x';
      var beside := from[i := other];
      assert beside[i] == other && (from[i := 'x'])[i] == 'x';
      var path := beside + [SLASH];
      assert (from + [SLASH])[i] != path[i];
      FittingIsSelected(from + [SLASH], path);
      assert Repathed(from, to, path) == to + [SLASH] && WithPrefix(from, to, path) == path;
      assert (to + [SLASH])[..|to|] == to && path[..|path| - 1] == beside;
    } else {
      forall path ensures Repathed(from, to, path) == WithPrefix(from, to, path) {
        RepathedWithoutWildcard(from, to, path);
      }
    }
  }

  // ----- Records and objects -----

  /** The key of a record's object: the archived copy stands beside the path it was archived from. */
  function KeyOf(base: string, r: Record): string {
    base + r.path + if r.status == ArchivedFile then ARCHIVE_EXTENSION else ""
  }

  function NewRecord(r: Record, from: string, to: string): Record {
    if r.status == Committed then r.(path := Repathed(from, to, r.path)) else r
  }

  /** The key the record names afterwards holds the bytes the one before held. */
  predicate Follows(base: string, r: Record, from: string, to: string, o: Objects, now: Objects) {
    var k, k' := KeyOf(base, r), KeyOf(base, NewRecord(r, from, to));
    k in o ==> k' in now && now[k'] == o[k]
  }

  /**
   * What a finished rename of the directory leaves, by the order of its listing:
   * an object at its own key moves alone.
   */
  function Finished(o: Objects, a: string, b: string, listed: seq<string>): Objects
    requires Listing(listed, o, Prefix(a))
  {
    if a in o then o[b := o[a]] - {a} else CopyAll(o, listed, Prefix(a), Prefix(b)) - KeySet(listed)
  }

  /** Selected though not below, and given a path that is not its own. */
  predicate Stray(r: Record, from: string, to: string) {
    r.status == Committed && !(from + [SLASH] <= r.path) && Repathed(from, to, r.path) != r.path
  }

  predicate IsDest(keys: set<string>, from: string, to: string, k: string) {
    exists k0 | k0 in keys && from <= k0 :: Dest(from, to, k0) == k
  }

  /**
   * What can be checked before the rename, of one record whose object stands at k.
   * With an object at the directory's own key only that object moves. Otherwise
   * what is below moves: it must not be archived, nor go where something else
   * that moves stands; and nothing may be put in the place of k.
   */
  predicate Stays(keys: set<string>, base: string, from: string, to: string, r: Record) {
    var a, b, k := base + from, base + to, KeyOf(base, r);
    var below := Prefix(a) <= k;
    if a in keys then k != a && k != b && !Stray(r, from, to) && !(below && r.status == Committed)
    else
      && !IsDest(keys, Prefix(a), Prefix(b), k) && !Stray(r, from, to)
      && (below ==>
            && r.status == Committed
            && var dest := Dest(Prefix(a), Prefix(b), k);
               !(dest in keys && Prefix(a) <= dest))
  }

  /** Two different normalized paths of a section. */
  predicate Renaming(from: string, to: string) {
    && from != to && from != "" && to != "" && from[|from| - 1] != SLASH && to[|to| - 1] != SLASH && '\\' !in from
  }

  /** Where the record's new key is. */
  lemma NewKey(base: string, r: Record, from: string, to: string)
    requires Renaming(from, to) && r.Active()
    ensures var p, q := Prefix(base + from), Prefix(base + to);
            var k, k' := KeyOf(base, r), KeyOf(base, NewRecord(r, from, to));
            && p == base + from + [SLASH] && q == base + to + [SLASH]
            && (r.status == Committed ==> (p <= k <==> from + [SLASH] <= r.path))
            && (r.status == Committed && p <= k ==> k' == Dest(p, q, k) && k' != k)
            && (!(r.status == Committed && p <= k) ==> (k' == k <==> !Stray(r, from, to)))
            && (k == base + from ==> k' == k)
            && (r.status != Committed || p <= k ==> !Stray(r, from, to))
  {
    hide StartsLike, From, KeyOf;
    KeyText(base, r);
    KeyText(base, NewRecord(r, from, to));
    if r.status == Committed {
      BasePrefix(base, from + [SLASH], r.path);
      BaseEqual(base, r.path, Repathed(from, to, r.path));
      if from + [SLASH] <= r.path {
        BelowKey(base, from, to, r.path);
      }
      BaseEqual(base, r.path, from);
      NotBelowItself(from);
    }
  }

  lemma KeyText(base: string, r: Record)
    ensures KeyOf(base, r) == base + r.path + if r.status == ArchivedFile then ARCHIVE_EXTENSION else ""
    ensures r.status == Committed ==> KeyOf(base, r) == base + r.path
  {
  }

  lemma BasePrefix(base: string, p: string, s: string)
    ensures base + p <= base + s <==> p <= s
  {
    if base + p <= base + s {
      assert p == (base + s)[|base|..|base + p|] == s[..|p|];
    }
  }

  lemma BaseEqual(base: string, s: string, s': string)
    ensures base + s == base + s' <==> s == s'
  {
    assert (base + s)[|base|..] == s && (base + s')[|base|..] == s';
  }

  lemma BelowKey(base: string, from: string, to: string, path: string)
    requires from + [SLASH] <= path && from != to && '\\' !in from
    ensures Repathed(from, to, path) == to + path[|from|..] && Repathed(from, to, path) != path
    ensures base + from + [SLASH] <= base + path
    ensures base + Repathed(from, to, path) == Dest(base + from + [SLASH], base + to + [SLASH], base + path)
  {
    hide StartsLike;
    OwnIsSelected(from + [SLASH], path);
    PrefixChanges(from, to, path);
    BasePrefix(base, from + [SLASH], path);
    assert path[|from|..] == [SLASH] + path[|from| + 1..];
    assert (base + path)[|base + from + [SLASH]|..] == path[|from| + 1..];
  }

  lemma PrefixChanges(from: string, to: string, path: string)
    requires from + [SLASH] <= path && from != to
    ensures to + path[|from|..] != path
  {
    assert from + path[|from|..] == path;
    assert (to + path[|from|..])[..|to|] == to;
  }

  // ----- Copies in any order -----

  /** A key nothing is copied to arrives with its content. */
  lemma {:induction false} CopiedOnce(o: Objects, keys: seq<string>, from: string, to: string, k: string)
    requires (forall x | x in keys :: x in o && from <= x) && k in keys && k !in Dests(KeySet(keys), from, to)
    ensures Dest(from, to, k) in CopyAll(o, keys, from, to) && CopyAll(o, keys, from, to)[Dest(from, to, k)] == o[k]
  {
    var init, key := keys[..|keys| - 1], keys[|keys| - 1];
    assert forall x :: x in keys <==> x in init || x == key;
    assert key in keys && from <= k;
    if key == k {
      CopiedElsewhere(o, init, from, to, k);
    } else {
      CopiedOnce(o, init, from, to, k);
      if Dest(from, to, key) == Dest(from, to, k) { DestInjective(from, to, key, k); }
    }
  }

  /**
   * Bytes that stand at one key only, which is not copied, stand nowhere else,
   * and there until something is copied over.
   */
  lemma {:induction false} CopiedNowhere(o: Objects, keys: seq<string>, from: string, to: string, k: string)
    requires (forall x | x in keys :: x in o && from <= x) && k in o && k !in keys
    requires forall x | x in o && x != k :: o[x] != o[k]
    ensures forall y | y in CopyAll(o, keys, from, to) && CopyAll(o, keys, from, to)[y] == o[k] ::
              y == k && k !in Dests(KeySet(keys), from, to)
  {
    if keys != [] {
      var init, key := keys[..|keys| - 1], keys[|keys| - 1];
      assert forall x :: x in keys <==> x in init || x == key;
      assert key in keys;
      CopiedNowhere(o, init, from, to, k);
      assert CopyAll(o, init, from, to)[key] != o[k];
    }
  }

  /** Later copies leave what they do not write. */
  lemma {:induction false} LaterCopies(o: Objects, first: seq<string>, rest: seq<string>, from: string, to: string,
                                       y: string)
    requires forall x | x in first + rest :: x in o && from <= x
    requires forall x | x in rest :: from <= x && Dest(from, to, x) != y
    requires forall x | x in first :: x in o && from <= x
    requires y in CopyAll(o, first, from, to)
    ensures y in CopyAll(o, first + rest, from, to)
    ensures CopyAll(o, first + rest, from, to)[y] == CopyAll(o, first, from, to)[y]
    decreases |rest|
  {
    if rest == [] {
      assert first + rest == first;
    } else {
      var init, key := rest[..|rest| - 1], rest[|rest| - 1];
      assert first + rest == first + init + [key] && (first + rest)[..|first + rest| - 1] == first + init;
      assert key in rest && forall x | x in init :: x in rest;
      assert forall x | x in first + init :: x in first + rest;
      LaterCopies(o, first, init, from, to, y);
    }
  }

  /** Copied after something was copied over it, a key arrives with other content. */
  lemma CopiedOver(o: Objects, rest: seq<string>, from: string, to: string, k0: string, k: string)
    requires forall x | x in [k0, k] + rest :: x in o && from <= x
    requires from <= k0 && from <= k && Dest(from, to, k0) == k && k0 != k && k !in rest
    ensures var r := CopyAll(o, [k0, k] + rest, from, to); Dest(from, to, k) in r && r[Dest(from, to, k)] == o[k0]
  {
    var first := [k0, k];
    assert forall x | x in rest :: x in first + rest;
    assert k0 in first + rest && k in first + rest;
    assert first[..1] == [k0] && [k0][..0] == [];
    assert CopyAll(o, [], from, to) == o;
    assert CopyAll(o, [k0], from, to) == o[k := o[k0]];
    assert CopyAll(o, first, from, to)[Dest(from, to, k)] == o[k0];
    forall x | x in rest ensures Dest(from, to, x) != Dest(from, to, k) {
      if Dest(from, to, x) == Dest(from, to, k) { DestInjective(from, to, x, k); }
    }
    LaterCopies(o, first, rest, from, to, Dest(from, to, k));
  }

  lemma {:induction false} InSomeOrder(keys: set<string>) returns (s: seq<string>)
    ensures (forall k :: k in s <==> k in keys) && forall i, j | 0 <= i < j < |s| :: s[i] != s[j]
    decreases |keys|
  {
    s := [];
    if keys != {} {
      var k :| k in keys;
      var rest := InSomeOrder(keys - {k});
      s := rest + [k];
    }
  }

  // ----- Which records follow their objects -----

  /** Whatever the objects at these keys hold and in whatever order they are listed, the record follows its object. */
  ghost predicate AlwaysFollows(keys: set<string>, base: string, from: string, to: string, r: Record) {
    forall o: Objects, listed | o.Keys == keys && Listing(listed, o, Prefix(base + from)) ::
      Follows(base, r, from, to, o, Finished(o, base + from, base + to, listed))
  }

  lemma StaysFollows(keys: set<string>, base: string, from: string, to: string, r: Record, o: Objects,
                     listed: seq<string>)
    requires Renaming(from, to) && r.Active() && Stays(keys, base, from, to, r)
    requires o.Keys == keys && Listing(listed, o, Prefix(base + from))
    ensures Follows(base, r, from, to, o, Finished(o, base + from, base + to, listed))
  {
    hide NewRecord, CopyAll, Stray, KeyOf;
    var a, b, k := base + from, base + to, KeyOf(base, r);
    var p, q := Prefix(a), Prefix(b);
    NewKey(base, r, from, to);
    if k in o && a !in o {
      CopiedKeys(o, listed, p, q);
      assert forall x | x in listed :: x in o && p <= x;
      if p <= k {
        CopiedOnce(o, listed, p, q, k);
      } else {
        CopiedElsewhere(o, listed, p, q, k);
      }
    }
  }

  /** Contents in which the bytes at k are nowhere else. */
  function Marked(keys: set<string>, k: string): Objects {
    map x | x in keys :: if x == k then [1] else [0]
  }

  /** Otherwise some content and some order lose it. */
  lemma MovesAway(keys: set<string>, base: string, from: string, to: string, r: Record)
    requires Renaming(from, to) && r.Active() && KeyOf(base, r) in keys && !Stays(keys, base, from, to, r)
    ensures !AlwaysFollows(keys, base, from, to, r)
  {
    hide NewRecord, CopyAll, Stray, KeyOf, Follows, Dests;
    var a, b, k := base + from, base + to, KeyOf(base, r);
    var p, q := Prefix(a), Prefix(b);
    var o := Marked(keys, k);
    NewKey(base, r, from, to);
    var listed := InSomeOrder(Below(o, p));
    if a in keys {
      MovesAwayFromFile(keys, base, from, to, r, listed);
    } else if p <= k && r.status == Committed && !(Dest(p, q, k) in keys && p <= Dest(p, q, k)) {
      var k0 :| k0 in keys && p <= k0 && Dest(p, q, k0) == k;
      OverwrittenOnTheWay(keys, base, from, to, r, k0);
    } else {
      MovesAwayElsewhere(keys, base, from, to, r, listed);
    }
  }

  lemma MovesAwayFromFile(keys: set<string>, base: string, from: string, to: string, r: Record, listed: seq<string>)
    requires Renaming(from, to) && r.Active() && KeyOf(base, r) in keys && !Stays(keys, base, from, to, r)
    requires base + from in keys && Listing(listed, Marked(keys, KeyOf(base, r)), Prefix(base + from))
    ensures !AlwaysFollows(keys, base, from, to, r)
  {
    hide NewRecord, CopyAll, Stray, KeyOf;
    NewKey(base, r, from, to);
    BaseEqual(base, from, to);
    var o := Marked(keys, KeyOf(base, r));
    assert !Follows(base, r, from, to, o, Finished(o, base + from, base + to, listed));
  }

  lemma MovesAwayElsewhere(keys: set<string>, base: string, from: string, to: string, r: Record, listed: seq<string>)
    requires Renaming(from, to) && r.Active() && KeyOf(base, r) in keys && !Stays(keys, base, from, to, r)
    requires base + from !in keys && Listing(listed, Marked(keys, KeyOf(base, r)), Prefix(base + from))
    requires var p, q, k := Prefix(base + from), Prefix(base + to), KeyOf(base, r);
             p <= k && r.status == Committed ==> Dest(p, q, k) in keys && p <= Dest(p, q, k)
    ensures !AlwaysFollows(keys, base, from, to, r)
  {
    hide NewRecord, CopyAll, Stray, KeyOf;
    var p, q, k := Prefix(base + from), Prefix(base + to), KeyOf(base, r);
    var o := Marked(keys, k);
    NewKey(base, r, from, to);
    var k' := KeyOf(base, NewRecord(r, from, to));
    var copied := CopyAll(o, listed, p, q);
    var now := Finished(o, base + from, base + to, listed);
    assert now == copied - KeySet(listed);
    if p <= k {
      assert k' in listed;
    } else {
      assert k !in listed;
      CopiedNowhere(o, listed, p, q, k);
      if IsDest(keys, p, q, k) {
        var k0 :| k0 in keys && p <= k0 && Dest(p, q, k0) == k;
        assert k0 in KeySet(listed) && k in Dests(KeySet(listed), p, q);
      } else {
        assert Stray(r, from, to) && k' != k;
      }
    }
    assert !(k' in now && now[k'] == o[k]);
    assert !Follows(base, r, from, to, o, now);
  }

  lemma OverwrittenOnTheWay(keys: set<string>, base: string, from: string, to: string, r: Record, k0: string)
    requires Renaming(from, to) && r.Active() && KeyOf(base, r) in keys && base + from !in keys
    requires var p, q, k := Prefix(base + from), Prefix(base + to), KeyOf(base, r);
             p <= k && r.status == Committed && k0 in keys && p <= k0 && Dest(p, q, k0) == k
    ensures !AlwaysFollows(keys, base, from, to, r)
  {
    hide NewRecord, CopyAll, Stray, KeyOf, Dests;
    var p, q, k := Prefix(base + from), Prefix(base + to), KeyOf(base, r);
    var o := Marked(keys, k);
    NewKey(base, r, from, to);
    assert k0 != k;
    var rest := InSomeOrder(Below(o, p) - {k0, k});
    var listed := [k0, k] + rest;
    assert forall x | x in listed :: x == k0 || x == k || x in rest;
    assert Listing(listed, o, p);
    CopiedOver(o, rest, p, q, k0, k);
    assert !Follows(base, r, from, to, o, Finished(o, base + from, base + to, listed));
  }

  /**
   * After a directory rename by path every record of the section whose object was
   * there names the object's bytes again exactly when each of them stays in the
   * sense above; whatever the objects hold and however they are listed.
   */
  lemma RenameKeepsRecords(s: State, keys: set<string>, base: string, user: UserId, section: Section, from: string,
                           to: string)
    requires Renaming(from, to)
    ensures var after := Renamed(s, NewPaths(s.records, user, section, from, to));
            (forall o: Objects, listed | o.Keys == keys && Listing(listed, o, Prefix(base + from)) ::
               AllFollow(s, after, base, user, section, o, Finished(o, base + from, base + to, listed)))
            <==>
            forall id | Concerned(s, keys, base, user, section, id) :: Stays(keys, base, from, to, s.records[id])
  {
    hide Follows, Finished, Stays, Listing, KeyOf, InScope, NewRecord;
    var after := Renamed(s, NewPaths(s.records, user, section, from, to));
    forall o: Objects, listed | o.Keys == keys && Listing(listed, o, Prefix(base + from))
      ensures (forall id | Concerned(s, keys, base, user, section, id) ::
                 Stays(keys, base, from, to, s.records[id])) ==>
                AllFollow(s, after, base, user, section, o, Finished(o, base + from, base + to, listed))
    {
      forall id | Concerned(s, keys, base, user, section, id) && Stays(keys, base, from, to, s.records[id])
        ensures RecordFollows(s, after, base, id, o, Finished(o, base + from, base + to, listed))
      {
        StaysFollows(keys, base, from, to, s.records[id], o, listed);
        RecordAfter(s, user, section, from, to, id);
        FollowsAfter(s, after, base, from, to, id, o, Finished(o, base + from, base + to, listed));
      }
    }
    forall id | Concerned(s, keys, base, user, section, id) && !Stays(keys, base, from, to, s.records[id])
      ensures exists o: Objects, listed ::
                o.Keys == keys && Listing(listed, o, Prefix(base + from))
                && !AllFollow(s, after, base, user, section, o, Finished(o, base + from, base + to, listed))
    {
      MovesAway(keys, base, from, to, s.records[id]);
      var o: Objects, listed :|
        && o.Keys == keys && Listing(listed, o, Prefix(base + from))
        && !Follows(base, s.records[id], from, to, o, Finished(o, base + from, base + to, listed));
      RecordAfter(s, user, section, from, to, id);
      FollowsAfter(s, after, base, from, to, id, o, Finished(o, base + from, base + to, listed));
    }
  }

  /** An active record of the section whose object is there. */
  predicate Concerned(s: State, keys: set<string>, base: string, user: UserId, section: Section, id: FileId) {
    id in s.records && s.records[id].Active() && InScope(s.records[id], user, section)
      && KeyOf(base, s.records[id]) in keys
  }

  predicate RecordFollows(s: State, after: State, base: string, id: FileId, o: Objects, now: Objects)
    requires id in s.records && KeyOf(base, s.records[id]) in o
  {
    id in after.records && KeyOf(base, after.records[id]) in now
    && now[KeyOf(base, after.records[id])] == o[KeyOf(base, s.records[id])]
  }

  ghost predicate AllFollow(s: State, after: State, base: string, user: UserId, section: Section, o: Objects,
                            now: Objects) {
    forall id | Concerned(s, o.Keys, base, user, section, id) :: RecordFollows(s, after, base, id, o, now)
  }

  lemma RecordAfter(s: State, user: UserId, section: Section, from: string, to: string, id: FileId)
    requires id in s.records && InScope(s.records[id], user, section)
    ensures var after := Renamed(s, NewPaths(s.records, user, section, from, to));
            id in after.records && after.records[id] == NewRecord(s.records[id], from, to)
  {
    hide StartsLike, From;
  }

  lemma FollowsAfter(s: State, after: State, base: string, from: string, to: string, id: FileId, o: Objects,
                     now: Objects)
    requires id in s.records && KeyOf(base, s.records[id]) in o
    requires id in after.records && after.records[id] == NewRecord(s.records[id], from, to)
    ensures RecordFollows(s, after, base, id, o, now) <==> Follows(base, s.records[id], from, to, o, now)
  {
    hide NewRecord, KeyOf;
  }

  /** What the adapter's finished rename leaves is such a result. */
  lemma OutcomeIsFinished(o: Objects, now: Objects, a: string, b: string, copied: seq<string>, deleted: set<string>,
                          listed: seq<string>)
    requires ObjectStore.RenameOutcome(ObjectStore.Done, o, now, a, b, copied, deleted) && Listing(listed, o, Prefix(a))
    ensures a in o ==> now == Finished(o, a, b, listed)
    ensures a !in o ==> Listing(copied, o, Prefix(a)) && now == Finished(o, a, b, copied)
  {
    hide CopyAll;
  }

  /**
   * In particular all follow when no object stands at the old path itself, none
   * at a destination, nothing archived below, and the path has no wildcard.
   */
  lemma OrdinaryRename(s: State, base: string, user: UserId, section: Section, from: string, to: string,
                       o: Objects, listed: seq<string>)
    requires Renaming(from, to) && !HasWildcard(from) && Listing(listed, o, Prefix(base + from))
    requires base + from !in o && FreeDests(o, Prefix(base + from), Prefix(base + to))
    requires forall id | Concerned(s, o.Keys, base, user, section, id) && s.records[id].status == ArchivedFile ::
               !(Prefix(base + from) <= KeyOf(base, s.records[id]))
    ensures AllFollow(s, Renamed(s, NewPaths(s.records, user, section, from, to)), base, user, section, o,
                      Finished(o, base + from, base + to, listed))
  {
    hide StartsLike, From, KeyOf, NewPaths, Renamed, Finished, Listing;
    var p, q := Prefix(base + from), Prefix(base + to);
    RenameKeepsRecords(s, o.Keys, base, user, section, from, to);
    forall id | Concerned(s, o.Keys, base, user, section, id) ensures Stays(o.Keys, base, from, to, s.records[id]) {
      RepathedWithoutWildcard(from, to, s.records[id].path);
      assert forall k | k in o.Keys && p <= k :: k in Below(o, p);
    }
  }
}
