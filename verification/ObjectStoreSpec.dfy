/** What the flat object store holds after an upload, a copy, a rename or a delete. */
module ObjectStoreSpec {
  import opened Common
  import opened EncryptedStream
  import opened StoragePaths

  const PART_SIZE: nat := 8 * 1024 * 1024
  const COPY_MAX: nat := 5 * 1024 * 1024 * 1024
  /** The store refuses smaller parts, except the last. */
  const MIN_PART_SIZE: nat := 5 * 1024 * 1024
  const READ_CHUNK_SIZE: nat := 64 * 1024
  const DELETE_BATCH: nat := 1000

  type Objects = map<string, Bytes>

  // ----- Parts -----

  /** A part as listed at completion; its bytes stand for its ETag. */
  datatype Part = Part(number: nat, body: Bytes)

  function Bodies(parts: seq<Part>): Bytes {
    if parts == [] then [] else Bodies(parts[..|parts| - 1]) + parts[|parts| - 1].body
  }

  predicate Numbered(parts: seq<Part>) {
    forall i | 0 <= i < |parts| :: parts[i].number == i + 1
  }

  predicate Full(parts: seq<Part>) {
    forall i | 0 <= i < |parts| :: |parts[i].body| == PART_SIZE
  }

  /** Numbers 1..n; every part but the last has exactly the part size, the last is not empty and no larger. */
  predicate Partition(parts: seq<Part>, body: Bytes) {
    && parts != []
    && Numbered(parts)
    && Full(parts[..|parts| - 1])
    && 0 < |parts[|parts| - 1].body| <= PART_SIZE
    && Bodies(parts) == body
  }

  lemma {:induction false} FullLength(parts: seq<Part>)
    requires Full(parts)
    ensures |Bodies(parts)| == PART_SIZE * |parts|
  {
    if parts != [] {
      FullLength(parts[..|parts| - 1]);
    }
  }

  /** Part i of full parts is the i-th block of their concatenation. */
  lemma {:induction false} FullBlock(parts: seq<Part>, i: nat)
    requires Full(parts) && i < |parts|
    ensures (i + 1) * PART_SIZE <= |Bodies(parts)|
    ensures parts[i].body == Bodies(parts)[i * PART_SIZE..(i + 1) * PART_SIZE]
  {
    var init := parts[..|parts| - 1];
    FullLength(parts);
    FullLength(init);
    if i < |init| {
      FullBlock(init, i);
      assert Bodies(parts)[i * PART_SIZE..(i + 1) * PART_SIZE] == Bodies(init)[i * PART_SIZE..(i + 1) * PART_SIZE];
    }
  }

  /**
   * A partition is consecutive, disjoint ranges that cover the bytes from 0 to
   * the end: ceil(size / 8 MiB) of them, each fixed by its number alone.
   */
  lemma PartitionRanges(parts: seq<Part>, body: Bytes, i: nat)
    requires Partition(parts, body) && i < |parts|
    ensures |parts| == CeilDiv(|body|, PART_SIZE)
    ensures i * PART_SIZE < Min((i + 1) * PART_SIZE, |body|) <= |body|
    ensures parts[i] == Part(i + 1, body[i * PART_SIZE..Min((i + 1) * PART_SIZE, |body|)])
    ensures i == |parts| - 1 ==> Min((i + 1) * PART_SIZE, |body|) == |body|
  {
    var init := parts[..|parts| - 1];
    FullLength(init);
    assert body == Bodies(init) + parts[|parts| - 1].body;
    if i < |init| {
      FullBlock(init, i);
      assert body[i * PART_SIZE..(i + 1) * PART_SIZE] == Bodies(init)[i * PART_SIZE..(i + 1) * PART_SIZE];
    }
  }

  /** The parts depend on the bytes alone, not on how they arrived. */
  lemma PartitionUnique(parts: seq<Part>, parts': seq<Part>, body: Bytes)
    requires Partition(parts, body) && Partition(parts', body)
    ensures parts == parts'
  {
    PartitionRanges(parts, body, 0);
    PartitionRanges(parts', body, 0);
    forall i | 0 <= i < |parts| ensures parts[i] == parts'[i] {
      PartitionRanges(parts, body, i);
      PartitionRanges(parts', body, i);
    }
  }

  /** The store completes an upload from uploaded parts, in ascending order, none but the last too small. */
  predicate Completable(uploaded: map<nat, Bytes>, parts: seq<Part>) {
    && parts != []
    && (forall i | 0 <= i < |parts| :: parts[i].number in uploaded && uploaded[parts[i].number] == parts[i].body)
    && (forall i | 0 <= i < |parts| - 1 :: parts[i].number < parts[i + 1].number)
    && (forall i | 0 <= i < |parts| - 1 :: |parts[i].body| >= MIN_PART_SIZE)
  }

  // ----- Listing and moving keys -----

  /** All keys with a prefix, each once, in any order. */
  predicate Listing(keys: seq<string>, o: Objects, prefix: string) {
    && (forall k | k in keys :: k in o && prefix <= k)
    && (forall k | k in o && prefix <= k :: k in keys)
    && (forall i, j | 0 <= i < j < |keys| :: keys[i] != keys[j])
  }

  function KeySet(keys: seq<string>): set<string> {
    set k | k in keys
  }

  function Dest(from: string, to: string, key: string): string
    requires from <= key
  {
    to + key[|from|..]
  }

  /** The keys under a prefix. */
  function Below(o: Objects, prefix: string): set<string> {
    set k | k in o && prefix <= k
  }

  function Dests(keys: set<string>, from: string, to: string): set<string>
    requires forall k | k in keys :: from <= k
  {
    set k | k in keys :: Dest(from, to, k)
  }

  /** Copies made one after the other, each reading what the earlier ones left. */
  function CopyAll(o: Objects, keys: seq<string>, from: string, to: string): (r: Objects)
    requires forall k | k in keys :: k in o && from <= k
    ensures o.Keys <= r.Keys
  {
    if keys == [] then o
    else
      var key := keys[|keys| - 1];
      var before := CopyAll(o, keys[..|keys| - 1], from, to);
      assert key in keys;
      before[Dest(from, to, key) := before[key]]
  }

  lemma OriginOf(from: string, to: string, k: string)
    requires from <= k
    ensures var x := Dest(from, to, k); to <= x && from + x[|to|..] == k
  {
    assert Dest(from, to, k)[|to|..] == k[|from|..];
    assert k == from + k[|from|..];
  }

  /** What arrives below `to`. */
  function Arrivals(o: Objects, from: string, to: string): Objects {
    map x | x in Dests(Below(o, from), from, to) ::
      (var k :| k in Below(o, from) && x == Dest(from, to, k); OriginOf(from, to, k); o[from + x[|to|..]])
  }

  /** Every key below `from` moved below `to`, the rest untouched. */
  function Moved(o: Objects, from: string, to: string): Objects {
    o + Arrivals(o, from, to) - Below(o, from)
  }

  /** No destination key is itself a key being moved. */
  ghost predicate NoOverlap(o: Objects, from: string, to: string) {
    forall k | k in o && from <= k :: !(Dest(from, to, k) in o && from <= Dest(from, to, k))
  }

  lemma {:induction false} CopiedContent(o: Objects, keys: seq<string>, from: string, to: string)
    requires forall k | k in keys :: k in o && from <= k
    requires forall k | k in keys :: Dest(from, to, k) !in o || !(from <= Dest(from, to, k))
    ensures var r := CopyAll(o, keys, from, to);
            && (forall k | k in keys :: Dest(from, to, k) in r && r[Dest(from, to, k)] == o[k])
            && (forall x | x in r :: x in o || x in Dests(KeySet(keys), from, to))
            && (forall x | x in o && x !in Dests(KeySet(keys), from, to) :: r[x] == o[x])
  {
    if keys != [] {
      var init, key := keys[..|keys| - 1], keys[|keys| - 1];
      assert forall k :: k in keys <==> k in init || k == key;
      CopiedContent(o, init, from, to);
      assert CopyAll(o, init, from, to)[key] == o[key];
      forall k | k in init && Dest(from, to, k) == Dest(from, to, key) ensures k == key {
        DestInjective(from, to, k, key);
      }
    }
  }

  lemma DestInjective(from: string, to: string, k: string, k': string)
    requires from <= k && from <= k' && Dest(from, to, k) == Dest(from, to, k')
    ensures k == k'
  {
    OriginOf(from, to, k);
    OriginOf(from, to, k');
  }

  lemma {:induction false} CopiedKeys(o: Objects, keys: seq<string>, from: string, to: string)
    requires forall k | k in keys :: k in o && from <= k
    ensures CopyAll(o, keys, from, to).Keys == o.Keys + Dests(KeySet(keys), from, to)
  {
    if keys != [] {
      var init, key := keys[..|keys| - 1], keys[|keys| - 1];
      assert forall k :: k in keys <==> k in init || k == key;
      CopiedKeys(o, init, from, to);
    }
  }

  /** With no overlap, copying all and then deleting the originals is the move, whatever order the listing had. */
  lemma CopyThenDeleteMoves(o: Objects, keys: seq<string>, from: string, to: string)
    requires Listing(keys, o, from) && NoOverlap(o, from, to)
    ensures CopyAll(o, keys, from, to) - KeySet(keys) == Moved(o, from, to)
  {
    hide CopyAll, Arrivals, Dests;
    CopiedKeys(o, keys, from, to);
    assert KeySet(keys) == Below(o, from);
    var r, arrived := CopyAll(o, keys, from, to), Arrivals(o, from, to);
    ArrivalKeys(o, from, to);
    forall x | x in r && x !in Below(o, from) ensures r[x] == (o + arrived)[x] {
      CopiedAt(o, keys, from, to, x);
    }
  }

  lemma ArrivalKeys(o: Objects, from: string, to: string)
    ensures Arrivals(o, from, to).Keys == Dests(Below(o, from), from, to)
  {
  }

  lemma CopiedAt(o: Objects, keys: seq<string>, from: string, to: string, x: string)
    requires Listing(keys, o, from) && NoOverlap(o, from, to) && x in CopyAll(o, keys, from, to)
    ensures x in o || x in Arrivals(o, from, to)
    ensures CopyAll(o, keys, from, to)[x] == (o + Arrivals(o, from, to))[x]
  {
    hide CopyAll;
    CopiedContent(o, keys, from, to);
    assert KeySet(keys) == Below(o, from);
    if x in Arrivals(o, from, to) {
      var k :| k in Below(o, from) && x == Dest(from, to, k);
      OriginOf(from, to, k);
    }
  }

  /** A key that is no destination is never written, whatever overlaps. */
  lemma {:induction false} CopiedElsewhere(o: Objects, keys: seq<string>, from: string, to: string, x: string)
    requires (forall k | k in keys :: k in o && from <= k) && x in o && x !in Dests(KeySet(keys), from, to)
    ensures CopyAll(o, keys, from, to)[x] == o[x]
  {
    if keys != [] {
      var init, key := keys[..|keys| - 1], keys[|keys| - 1];
      assert forall k :: k in keys <==> k in init || k == key;
      CopiedElsewhere(o, init, from, to, x);
    }
  }

  /** The moved objects arrive exactly when no destination key is itself being moved. */
  lemma MovedObjectsArrive(o: Objects, keys: seq<string>, from: string, to: string)
    requires Listing(keys, o, from)
    ensures var r := CopyAll(o, keys, from, to) - KeySet(keys);
            NoOverlap(o, from, to) <==> forall k | k in keys :: Dest(from, to, k) in r && r[Dest(from, to, k)] == o[k]
  {
    CopiedKeys(o, keys, from, to);
    if NoOverlap(o, from, to) {
      CopiedContent(o, keys, from, to);
    }
  }

  /** Where a rename should put an object. */
  function Place(from: string, to: string, x: string): string {
    if from <= x then Dest(from, to, x) else x
  }

  /** No object stands where a moved one will go. */
  ghost predicate FreeDests(o: Objects, from: string, to: string) {
    forall k | k in Below(o, from) :: Dest(from, to, k) !in o
  }

  /** Every object of the store is in its place afterwards, and no two share one. */
  ghost predicate AllInPlace(o: Objects, r: Objects, from: string, to: string) {
    && (forall x | x in o :: Place(from, to, x) in r && r[Place(from, to, x)] == o[x])
    && (forall x, y | x in o && y in o && Place(from, to, x) == Place(from, to, y) :: x == y)
  }

  /**
   * A finished rename keeps every object of the store, moved or not, in a place
   * of its own exactly when no object stood at a destination. Whatever stood
   * anywhere else is as it was in any case.
   */
  lemma RenameKeepsEverything(o: Objects, keys: seq<string>, from: string, to: string)
    requires Listing(keys, o, from)
    ensures AllInPlace(o, CopyAll(o, keys, from, to) - KeySet(keys), from, to) <==> FreeDests(o, from, to)
    ensures var r := CopyAll(o, keys, from, to) - KeySet(keys);
            forall x | x in o && x !in Below(o, from) && x !in Dests(Below(o, from), from, to) :: x in r && r[x] == o[x]
  {
    hide CopyAll;
    var r := CopyAll(o, keys, from, to) - KeySet(keys);
    assert KeySet(keys) == Below(o, from);
    CopiedKeys(o, keys, from, to);
    forall x | x in o && x !in Below(o, from) && x !in Dests(Below(o, from), from, to) ensures r[x] == o[x] {
      CopiedElsewhere(o, keys, from, to, x);
    }
    if FreeDests(o, from, to) {
      MovedObjectsArrive(o, keys, from, to);
      forall x, y | x in o && y in o && Place(from, to, x) == Place(from, to, y) ensures x == y {
        if x in Below(o, from) && y in Below(o, from) { DestInjective(from, to, x, y); }
      }
    } else {
      var k :| k in Below(o, from) && Dest(from, to, k) in o;
      assert Place(from, to, k) == Dest(from, to, k);
    }
  }

  /** The rename of a single object keeps every other one exactly when its new key was free. */
  lemma SingleRenameKeepsEverything(o: Objects, oldKey: string, newKey: string)
    requires oldKey in o
    ensures var r := o[newKey := o[oldKey]] - {oldKey};
            (newKey in r && r[newKey] == o[oldKey]
             && (forall x | x in o && x != oldKey :: x in r && x != newKey && r[x] == o[x]))
            <==> newKey !in o
  {
  }

  // ----- Rename -----

  /** Two places neither of which lies in the other. */
  ghost predicate Apart(from: string, to: string) {
    !(from <= to) && !(to <= from)
  }

  lemma ApartNeverOverlaps(o: Objects, from: string, to: string)
    requires Apart(from, to)
    ensures NoOverlap(o, from, to)
  {
    forall k | k in o && from <= k ensures !(from <= Dest(from, to, k)) {
      OriginOf(from, to, k);
    }
  }

  /** The object at a key if there is one, otherwise everything below it; None stands for not found. */
  function Relocate(o: Objects, oldKey: string, newKey: string): Option<Objects> {
    if oldKey in o then Some(o[newKey := o[oldKey]] - {oldKey})
    else if Below(o, Prefix(oldKey)) == {} then None
    else Some(Moved(o, Prefix(oldKey), Prefix(newKey)))
  }

  /** Where the object at x came from after a move. */
  lemma MovedLookup(o: Objects, from: string, to: string, x: string)
    requires Apart(from, to)
    ensures x in Moved(o, from, to) <==>
            if to <= x then x in o || from + x[|to|..] in o else x in o && !(from <= x)
    ensures x in Moved(o, from, to) ==>
              Moved(o, from, to)[x] == if to <= x && from + x[|to|..] in o then o[from + x[|to|..]] else o[x]
  {
    if to <= x && from + x[|to|..] in o {
      var k := from + x[|to|..];
      assert k[|from|..] == x[|to|..] && Dest(from, to, k) == x && k in Below(o, from);
    }
    if x in Dests(Below(o, from), from, to) {
      var k :| k in Below(o, from) && x == Dest(from, to, k);
      OriginOf(from, to, k);
    }
  }

  /** Moving to a free place and back restores the store; moving onto anything never does. */
  lemma MoveBack(o: Objects, from: string, to: string)
    requires Apart(from, to)
    ensures Moved(Moved(o, from, to), to, from) == o <==> Below(o, to) == {}
  {
    hide Moved;
    var there := Moved(o, from, to);
    var back := Moved(there, to, from);
    if Below(o, to) != {} {
      var k :| k in Below(o, to);
      MovedLookup(there, to, from, k);
      assert k !in back;
    } else {
      forall x ensures x in back <==> x in o
        ensures x in back ==> back[x] == o[x]
      {
        MovedBackAt(o, from, to, x);
      }
    }
  }

  lemma MovedBackAt(o: Objects, from: string, to: string, x: string)
    requires Apart(from, to) && Below(o, to) == {}
    ensures var back := Moved(Moved(o, from, to), to, from);
            (x in back <==> x in o) && (x in o && x in back ==> back[x] == o[x])
  {
    hide Moved;
    var there := Moved(o, from, to);
    MovedLookup(there, to, from, x);
    MovedLookup(o, from, to, x);
    assert x in o ==> to <= x ==> x in Below(o, to);
    if from <= x {
      var y := to + x[|from|..];
      MovedLookup(o, from, to, y);
      assert y[|to|..] == x[|from|..] && from + x[|from|..] == x && to <= y;
      assert y in o ==> y in Below(o, to);
      assert !(to <= x);
    }
  }

  /**
   * Renaming and renaming back restores the store exactly when nothing stood at
   * the new key and, for a directory, nothing stood below it.
   */
  lemma RenameBack(o: Objects, oldKey: string, newKey: string)
    requires oldKey != "" && newKey != "" && oldKey[|oldKey| - 1] != SLASH && newKey[|newKey| - 1] != SLASH
    requires Apart(Prefix(oldKey), Prefix(newKey)) && Relocate(o, oldKey, newKey).Some?
    ensures Relocate(Relocate(o, oldKey, newKey).value, newKey, oldKey) == Some(o) <==>
            newKey !in o && (oldKey in o || Below(o, Prefix(newKey)) == {})
  {
    var from, to := Prefix(oldKey), Prefix(newKey);
    var there := Relocate(o, oldKey, newKey).value;
    assert oldKey != newKey;
    if oldKey in o {
      var back := Relocate(there, newKey, oldKey).value;
      assert newKey !in back;
      assert back[oldKey] == o[oldKey];
      if newKey !in o {
        assert back == o;
      }
    } else {
      MovedLookup(o, from, to, newKey);
      MovedLookup(o, from, to, oldKey);
      assert !(to <= newKey);
      NotBelow(oldKey, newKey);
      if newKey in o {
        assert oldKey in Relocate(there, newKey, oldKey).value;
      } else {
        var k :| k in Below(o, from);
        var y := to + k[|from|..];
        MovedLookup(o, from, to, y);
        assert y[|to|..] == k[|from|..] && from + k[|from|..] == k;
        assert y in there && to <= y;
        MoveBack(o, from, to);
      }
    }
  }

  lemma NotBelow(oldKey: string, newKey: string)
    requires oldKey != "" && newKey != "" && oldKey[|oldKey| - 1] != SLASH && newKey[|newKey| - 1] != SLASH
    requires Apart(Prefix(oldKey), Prefix(newKey))
    ensures !(Prefix(oldKey) <= newKey)
  {
    assert newKey <= Prefix(newKey);
  }

  /** How far a directory rename got: some copies, or all of them and some deletions. */
  predicate Partway(o: Objects, now: Objects, from: string, to: string, copied: seq<string>, deleted: set<string>) {
    && (forall k | k in copied :: k in o && from <= k)
    && deleted <= Below(o, from)
    && (deleted != {} ==> Below(o, from) <= KeySet(copied))
    && now == CopyAll(o, copied, from, to) - deleted
  }

  /**
   * A rename that stops anywhere has changed nothing but destination keys and
   * moved keys, and when no destination is itself being moved each moved object
   * is at its old key or at its new one. If no object stood at a destination,
   * every object of the store is still at one of its two keys.
   */
  lemma StoppedRenameLosesNothing(o: Objects, now: Objects, from: string, to: string, copied: seq<string>,
                                  deleted: set<string>)
    requires Partway(o, now, from, to, copied, deleted)
    ensures forall x | x in o && x !in Below(o, from) && x !in Dests(Below(o, from), from, to) ::
              x in now && now[x] == o[x]
    ensures forall x | x in now && x !in o :: x in Dests(Below(o, from), from, to)
    ensures NoOverlap(o, from, to) ==>
              forall k | k in Below(o, from) ::
                (k in now && now[k] == o[k]) || (Dest(from, to, k) in now && now[Dest(from, to, k)] == o[k])
    ensures FreeDests(o, from, to) ==>
              forall x | x in o :: (x in now && now[x] == o[x])
                || (from <= x && Dest(from, to, x) in now && now[Dest(from, to, x)] == o[x])
  {
    hide CopyAll;
    CopiedKeys(o, copied, from, to);
    assert Dests(KeySet(copied), from, to) <= Dests(Below(o, from), from, to);
    forall x | x in o && x !in Below(o, from) && x !in Dests(Below(o, from), from, to)
      ensures x in now && now[x] == o[x]
    {
      CopiedElsewhere(o, copied, from, to, x);
    }
    if NoOverlap(o, from, to) {
      CopiedContent(o, copied, from, to);
      forall k | k in Below(o, from)
        ensures (k in now && now[k] == o[k]) || (Dest(from, to, k) in now && now[Dest(from, to, k)] == o[k])
      {
        if k in copied {
          assert Dest(from, to, k) !in Below(o, from);
        }
      }
    }
  }
}
