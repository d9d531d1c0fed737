/** Archiving one record: the job works on the whole disk, under the record's plain path. */
module ArchiveJob {
  import opened Common
  import opened EncryptedAdapter
  import opened EncryptedNames
  import opened EncryptedStream
  import opened ObjectStore
  import opened ObjectStoreSpec
  import opened ObjectTree
  import opened StoragePaths

  /** The path on the disk of a record, by its stored path in the section. */
  function Relative(root: Path, path: string): string {
    if path == "" then Join(root) else Join(root) + [SLASH] + path
  }

  /** The key at which the job looks for its object: that path, normalized once more. */
  function LookedUp(root: Path, path: string): Option<string> {
    SafeLogicalKey(Relative(root, path))
  }

  predicate FoundAt(o: Objects, root: Path, path: string) {
    LookedUp(root, path).Some? && LookedUp(root, path).value in o
  }

  /**
   * A path at which an object may stand in a section with encrypted names: one
   * that leads to the section's root, or whose first name is reserved.
   */
  predicate ReservedPath(c: Cipher, root: Path, path: string) {
    var key := LookedUp(root, path);
    key.Some? && var x := Split(key.value);
    root < x ==> Reserved(c, x[|root|])
  }

  /** The job finds an object for a private record at reserved paths only. */
  lemma FoundIsReserved(c: Cipher, o: Objects, root: Path, path: string)
    requires Shaped(c, Segments(o), root) && FoundAt(o, root, path)
    ensures ReservedPath(c, root, path)
  {
    hide LookedUp, Split, Reserved;
    assert Split(LookedUp(root, path).value) in Segments(o);
  }

  /** Once a section was unlocked there is an object for a file called like the marker. */
  lemma MarkerIsFound(o: Objects, root: Path)
    requires root != [] && Tidy(root)
    ensures FoundAt(o, root, MARKER_FILENAME) <==> root + [MARKER_FILENAME] in Segments(o)
  {
    hide Split, ObjectKey, SafeLogicalKey;
    var marker := [MARKER_FILENAME];
    var x := root + marker;
    assert Join(marker) == MARKER_FILENAME && Tidy(marker);
    assert forall s | s in x :: s in root || s in marker;
    assert forall s | s in x :: Plain(s);
    JoinAppend(root, marker);
    TidyJoin(x);
    PlainJoinIsSafe(x);
    PrefixIsAncestor(x, Join(x));
    if x in Segments(o) {
      var k :| k in o && Split(k) == x;
      PrefixIsAncestor(x, k);
    }
  }

  // ----- Paths on the disk -----

  /** A path as `to_disk_relative_path` gives it: plain segments after a prefix that starts without a blank. */
  predicate OnDisk(x: Path) {
    |x| > 1 && (forall s | s in x :: Plain(s)) && x[0] != "" && !IsBlank(x[0][0])
  }

  /** What is left of the path when it is normalized once more. */
  function Trimmed(x: Path): Path
    requires x != []
  {
    var last := RStripBlank(x[|x| - 1]);
    x[..|x| - 1] + if last == "" || last == "." then [] else [last]
  }

  function ArchivedPath(x: Path): Path
    requires x != []
  {
    x[..|x| - 1] + [x[|x| - 1] + ARCHIVE_EXTENSION]
  }

  lemma {:induction false} SafePartsSnoc(init: seq<string>, last: string)
    requires forall s | s in init :: Plain(s)
    requires last == "" || last == "." || last == ".." || Plain(last)
    ensures SafeParts(init + [last]) ==
            if last == ".." then None else if last == "" || last == "." then Some(init) else Some(init + [last])
  {
    if init == [] {
      assert init + [last] == [last] && [last][1..] == [] && [last] + [] == [last];
    } else {
      assert init[0] in init && (init + [last])[1..] == init[1..] + [last];
      SafePartsSnoc(init[1..], last);
      assert [init[0]] + init[1..] == init && [init[0]] + (init[1..] + [last]) == init + [last];
    }
  }

  /** Only blanks at the end of the last segment are lost, and the segment with them when nothing is left of it. */
  lemma KeyOfRelative(x: Path)
    requires OnDisk(x)
    ensures SafeLogicalKey(Join(x)) == if RStripBlank(x[|x| - 1]) == ".." then None else Some(Join(Trimmed(x)))
  {
    hide Join, Split, RStripBlank, LStripSlash, Slashed, Strip, SafeParts, Plain, Named;
    var init, last := x[..|x| - 1], x[|x| - 1];
    var p, r := Join(init), RStripBlank(last);
    PathAndName(x);
    StrippedRelative(p, last);
    SplitJoined(init, r);
    JoinOf(r);
    SplitJoin([r]);
    SafePartsSnoc(init, r);
    assert SafeLogicalKey(Join(x)) ==
           if SafeParts(init + [r]).None? then None else Some(Join(SafeParts(init + [r]).value));
    assert init + [] == init;
  }

  lemma PathAndName(x: Path)
    requires OnDisk(x)
    ensures var init, last := x[..|x| - 1], x[|x| - 1];
            && Join(x) == Join(init) + [SLASH] + last && Plain(last) && Named(init) && forall s | s in init :: Plain(s)
    ensures var p := Join(x[..|x| - 1]);
            p != "" && p[0] != SLASH && !IsBlank(p[0]) && '\\' !in p
  {
    hide Join;
    var init, last := x[..|x| - 1], x[|x| - 1];
    assert x == init + [last] && last in x && x[0] in x && forall s | s in init :: s in x;
    JoinAppend(init, [last]);
    JoinOf(last);
    JoinLength(init);
  }

  lemma StrippedRelative(p: string, last: string)
    requires p != "" && p[0] != SLASH && !IsBlank(p[0]) && '\\' !in p && Plain(last)
    ensures LStripSlash(Slashed(Strip(p + [SLASH] + last))) == p + [SLASH] + RStripBlank(last)
    ensures var r := RStripBlank(last);
            SLASH !in r && (r == "" || r == "." || r == ".." || Plain(r))
  {
    hide RStripBlank;
    var path, r := p + [SLASH] + last, RStripBlank(last);
    RStripAppend(p + [SLASH], last);
    assert RStripBlank(p + [SLASH]) == p + [SLASH];
    assert LStripBlank(path) == path;
    assert Strip(path) == p + [SLASH] + r;
    assert forall ch | ch in r :: ch in last;
    assert Slashed(p + [SLASH] + r) == p + [SLASH] + r;
  }

  lemma JoinOf(s: string)
    ensures Join([s]) == s
  {
  }

  /** A stored path is reserved exactly when it is empty, or its first name is reserved. */
  lemma ReservedByFirstName(c: Cipher, root: Path, names: Path)
    requires root != [] && Tidy(root) && (forall s | s in names :: Plain(s)) && LookedUp(root, Join(names)).Some?
    ensures ReservedPath(c, root, Join(names)) <==> names == [] || Reserved(c, names[0])
  {
    hide Join, Split, SafeLogicalKey, DecryptName, Bare;
    var x := root + names;
    JoinNothing();
    assert root[0] in root;
    assert forall s | s in root :: Plain(s);
    TidyJoin(root);
    if names == [] {
      PlainJoinIsSafe(root);
      SplitJoin(root);
    } else {
      JoinAppend(root, names);
      JoinLength(names);
      assert forall s | s in x :: s in root || s in names;
      KeyOfRelative(x);
      var z := Trimmed(x);
      SplitPlain(x, z);
      assert LookedUp(root, Join(names)) == Some(Join(z)) && names[0] == x[|root|];
      BareOfBlanks(x[|x| - 1]);
      BareEnds();
      if |z| > |root| {
        assert z[..|root|] == root && root < z;
        assert Bare(z[|root|]) == Bare(x[|root|]);
      } else {
        assert |names| == 1 && names[0] == x[|x| - 1];
      }
    }
  }

  lemma BareEnds()
    ensures Bare("") == "" && Bare(".") == "."
  {
  }

  /** The archived object's path is normal already. */
  lemma KeyOfArchived(x: Path)
    requires OnDisk(x)
    ensures Join(x) + ARCHIVE_EXTENSION == Join(ArchivedPath(x))
    ensures SafeLogicalKey(Join(ArchivedPath(x))) == Some(Join(ArchivedPath(x)))
    ensures Join(ArchivedPath(x)) != "" && Join(ArchivedPath(x))[|Join(ArchivedPath(x))| - 1] != SLASH
  {
    hide Join;
    var init, last := x[..|x| - 1], x[|x| - 1];
    var y := ArchivedPath(x);
    assert x == init + [last] && last in x && forall s | s in init :: s in x;
    JoinAppend(init, [last]);
    JoinAppend(init, [last + ARCHIVE_EXTENSION]);
    JoinOf(last);
    JoinOf(last + ARCHIVE_EXTENSION);
    assert forall s | s in y :: s in init || s == last + ARCHIVE_EXTENSION;
    JoinLength(y);
    assert y[0] == x[0];
    PlainJoinIsSafe(y);
  }

  lemma {:induction false} BareOfBlanks(name: string)
    ensures Bare(RStripBlank(name)) == Bare(name)
    decreases |name|
  {
    if name != "" && IsBlank(name[|name| - 1]) {
      assert ARCHIVE_EXTENSION[3] == 't' && !IsBlank('t');
      BareOfBlanks(name[..|name| - 1]);
    }
  }

  /** Archiving an object below the root leaves the section in shape. */
  lemma ArchiveKeepsShape(c: Cipher, o: Objects, now: Objects, root: Path, x: Path)
    requires Shaped(c, Segments(o), root) && OnDisk(x) && root != []
    requires SafeLogicalKey(Join(x)).Some? && SafeLogicalKey(Join(x)).value in o
    requires forall k | k in now :: k in o || k == Join(ArchivedPath(x))
    ensures Shaped(c, Segments(now), root)
  {
    hide Join, Split, SafeLogicalKey, DecryptName;
    var y, z := ArchivedPath(x), Trimmed(x);
    KeyOfRelative(x);
    KeyOfArchived(x);
    SplitPlain(x, y);
    SplitPlain(x, z);
    forall k | k in Segments(now) && root < k ensures Reserved(c, k[|root|]) {
      var key :| key in now && Split(key) == k;
      if key !in o {
        var last := x[|x| - 1];
        assert k == y && k[..|root|] == root;
        if |root| < |x| - 1 {
          assert z[|root|] == y[|root|] && root < z && z in Segments(o);
        } else {
          assert Bare(last + ARCHIVE_EXTENSION) == Bare(last) by {
            assert (last + ARCHIVE_EXTENSION)[..|last|] == last;
          }
          BareOfBlanks(last);
          if |z| == |x| { assert root < z && z in Segments(o); }
        }
      }
    }
  }

  lemma SplitPlain(x: Path, y: Path)
    requires OnDisk(x) && (y == ArchivedPath(x) || y == Trimmed(x))
    ensures Split(Join(y)) == y
  {
    hide RStripBlank;
    var last := RStripBlank(x[|x| - 1]);
    assert x[|x| - 1] in x && x[0] in x;
    assert forall ch | ch in last :: ch in x[|x| - 1];
    assert forall s | s in y :: s in x || s == last || s == x[|x| - 1] + ARCHIVE_EXTENSION;
    SplitJoin(y);
  }

  /**
   * `_archive_record` on a disk-wide adapter: copy the compressed object to the
   * path with the archive extension, delete the path and everything below it.
   * Without faults the record is archived exactly when its object is there.
   */
  method ArchiveRecord(disk: S3StorageAdapter, relative: string, compress: Bytes -> Bytes, ghost x: Path)
    returns (archived: bool)
    requires disk.bucket.Valid() && disk.rootPrefix == "" && OnDisk(x) && relative == Join(x)
    modifies disk.bucket
    ensures disk.bucket.Valid()
    ensures var o, key := old(disk.bucket.objects), SafeLogicalKey(relative);
            && (archived ==> key.Some? && key.value in o)
            && (archived ==>
                  var copied := o[relative + ARCHIVE_EXTENSION := compress(o[key.value])];
                  disk.bucket.objects == copied - ({key.value} + Below(copied, Prefix(key.value))))
            && (forall k | k in disk.bucket.objects :: k in o || k == relative + ARCHIVE_EXTENSION)
            && (!(key.Some? && key.value in o) ==> disk.bucket.objects == o)
            && (old(disk.bucket.Healthy()) ==> (archived <==> key.Some? && key.value in o))
  {
    hide SafeLogicalKey, Partition, Flatten, Join;
    archived := false;
    KeyOfArchived(x);
    var blob := disk.Read(relative);
    if !blob.Found? { return; }
    var compressed := compress(Flatten(blob.value));
    OnePiece(compressed);
    var written, _ := disk.Write(relative + ARCHIVE_EXTENSION, [compressed], false);
    if !written.Written? { return; }
    var deleted := disk.Delete(relative);
    archived := deleted.Done?;
  }

  lemma OnePiece(b: Bytes)
    ensures Flatten([b]) == b
  {
    assert [b][1..] == [] && b + [] == b;
  }
}
