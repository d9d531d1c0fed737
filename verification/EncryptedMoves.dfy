/** What moving an encrypted entry does to what is read, and how an upload uses it. */
module EncryptedMoves {
  import opened Common
  import opened EncryptedAdapter
  import opened EncryptedNames
  import opened EncryptedStream
  import opened EncryptedTree
  import opened ObjectStore
  import opened ObjectStoreSpec
  import opened ObjectTree
  import opened StoragePaths

  /** The same object, or the same absence, at a key before and a key after. */
  predicate SameObject(o: Objects, k: string, now: Objects, k': string) {
    if k in o then k' in now && now[k'] == o[k] else k' !in now
  }

  /** Nothing was at the new path, and an object at the old one has nothing below it. */
  ghost predicate CleanMove(t: Tree, a: Path, b: Path) {
    && a != [] && b != [] && !(a <= b) && !(b <= a) && !Live(t, b)
    && (a in t ==> forall k | k in t && a <= k :: k == a)
  }

  // ----- Objects of a moved subtree -----

  lemma KeyIsSegment(o: Objects, x: Path)
    requires x != [] && Named(x)
    ensures Join(x) in o <==> x in Segments(o)
  {
    hide Split, Join;
    NamedSplitJoin(x);
    if x in Segments(o) {
      var k :| k in o && Split(k) == x;
      PrefixIsAncestor(x, k);
    }
  }

  /** Below a moved path each object is where its path moved to. */
  lemma MovedContents(o: Objects, now: Objects, a: Path, b: Path, rest: Path)
    requires Named(a) && Named(b) && Named(rest) && CleanMove(Segments(o), a, b)
    requires Relocate(o, Join(a), Join(b)) == Some(now)
    ensures SameObject(o, Join(a + rest), now, Join(b + rest))
  {
    hide Split, Join, Segments, Moved, Live;
    assert Named(a + rest) && Named(b + rest);
    KeyIsSegment(o, a);
    KeyIsSegment(o, a + rest);
    KeyIsSegment(o, b + rest);
    assert b <= b + rest && a <= a + rest;
    NotLive(Segments(o), b, b + rest);
    if rest == [] {
      assert a + rest == a && b + rest == b;
    }
    if Join(a) in o {
      MovedFile(o, now, a, b, rest);
    } else {
      MovedBelow(o, a, b, rest);
    }
  }

  lemma NotLive(t: Tree, x: Path, k: Path)
    requires !Live(t, x) && x <= k
    ensures k !in t
  {
  }

  lemma MovedFile(o: Objects, now: Objects, a: Path, b: Path, rest: Path)
    requires Named(a) && Named(b) && Named(a + rest) && Named(b + rest) && a != [] && b != [] && a != b
    requires Join(a) in o && now == o[Join(b) := o[Join(a)]] - {Join(a)}
    requires Join(b + rest) !in o && (Join(a + rest) in o ==> a + rest == a)
    ensures SameObject(o, Join(a + rest), now, Join(b + rest))
  {
    hide Split, Join;
    NamedSplitJoin(a);
    NamedSplitJoin(b);
    NamedSplitJoin(b + rest);
    if rest != [] { assert |b + rest| > |b| && |a + rest| > |a|; }
    if rest == [] { assert a + rest == a && b + rest == b; }
  }

  lemma MovedBelow(o: Objects, a: Path, b: Path, rest: Path)
    requires Named(a) && Named(b) && Named(b + rest) && a != [] && b != [] && !(a <= b) && !(b <= a)
    requires Join(a) !in o && Join(b + rest) !in o
    ensures SameObject(o, Join(a + rest), Moved(o, Prefix(Join(a)), Prefix(Join(b))), Join(b + rest))
  {
    hide Split, Join, Moved;
    var from, to := Prefix(Join(a)), Prefix(Join(b));
    ApartPrefixes(a, b);
    MovedLookup(o, from, to, Join(b + rest));
    NamedSplitJoin(b + rest);
    PrefixIsAncestor(b, Join(b + rest));
    if rest == [] {
      assert a + rest == a && b + rest == b;
    } else {
      assert b < b + rest;
      JoinAppend(a, rest);
      JoinAppend(b, rest);
      SplitJoined(a, "");
      SplitJoined(b, "");
      assert from + Join(rest) == Join(a + rest) && to + Join(rest) == Join(b + rest);
    }
  }

  /** Elsewhere every object stays. */
  lemma UnmovedContents(o: Objects, now: Objects, a: Path, b: Path, z: Path)
    requires Named(a) && Named(b) && Named(z) && z != [] && a != [] && b != [] && !(a <= b) && !(b <= a)
    requires Relocate(o, Join(a), Join(b)) == Some(now) && !(a <= z) && !(b <= z)
    ensures SameObject(o, Join(z), now, Join(z))
  {
    hide Split, Join, Moved;
    NamedSplitJoin(a);
    NamedSplitJoin(b);
    NamedSplitJoin(z);
    if Join(a) !in o {
      ApartPrefixes(a, b);
      PrefixIsAncestor(a, Join(z));
      PrefixIsAncestor(b, Join(z));
      MovedLookup(o, Prefix(Join(a)), Prefix(Join(b)), Join(z));
    }
  }

  // ----- What a logical path reads after a rename -----

  /** The logical path is not both a file and a directory. */
  ghost predicate NotBoth(c: Cipher, t: Tree, root: Path, l: Logical) {
    forall x, k | Resolves(c, t, root, l, x) && root + x in t && k in t && root + x <= k :: k == root + x
  }

  lemma FreshRenames(c: Cipher, t: Tree, root: Path, a: Logical, x: Path, b: Logical, y: Path)
    requires Unnested(Names(a), Names(b)) && Fresh(c, t, root, b) && NotBoth(c, t, root, a)
    requires Resolves(c, t, root, a, x) && Drawn(c, t, root, Names(b), y)
    ensures Renames(c, t, root, a, x, b, y) && CleanMove(t, root + x, root + y)
  {
    hide DecryptName;
    ReadsApart(c, a, x, b, y);
    RootedPrefix(root, x, y);
    RootedPrefix(root, y, x);
    assert Live(t, root + y) <==> Resolves(c, t, root, b, y);
  }

  /**
   * After a rename to a fresh path, whatever a path resolves to is the object it
   * stood for before: below the new path the one below the old path, anywhere
   * else the same one.
   */
  lemma RenameKeepsContents(c: Cipher, o: Objects, now: Objects, root: Path, a: Logical, x: Path, b: Logical, y: Path,
                            l: Logical, z: Path)
    requires Named(root) && SiblingsDistinct(c, Segments(o), root) && Fresh(c, Segments(o), root, b)
    requires Unnested(Names(a), Names(b)) && NotBoth(c, Segments(o), root, a)
    requires Resolves(c, Segments(o), root, a, x) && Drawn(c, Segments(o), root, Names(b), y)
    requires Relocate(o, Join(root + x), Join(root + y)) == Some(now)
    requires l != [] && Resolves(c, Segments(now), root, l, z)
    ensures b <= l ==>
              && y <= z && Resolves(c, Segments(o), root, a + l[|b|..], x + z[|y|..])
              && SameObject(o, Join(root + (x + z[|y|..])), now, Join(root + z))
    ensures !(b <= l) ==> Resolves(c, Segments(o), root, l, z) && SameObject(o, Join(root + z), now, Join(root + z))
  {
    hide Join, Segments, DecryptName, Live, Reads, Relocate, AfterRename, SiblingsDistinct, Fresh, NotBoth, KeptBy,
         SameObject;
    FreshRenames(c, Segments(o), root, a, x, b, y);
    NamedPaths(c, root, Names(a), x);
    NamedPaths(c, root, Names(b), y);
    NamedPaths(c, root, Names(l), z);
    StoreRenameIsTreeRename(c, o, root, a, x, b, y);
    RenameResolves(c, Segments(o), root, a, x, b, y, l, z);
    if b <= l {
      ObjectsFollow(o, now, root, x, y, z);
    } else {
      PrefixesRead(c, root, a, x, l, z);
      PrefixesRead(c, root, b, y, l, z);
      UnmovedContents(o, now, root + x, root + y, root + z);
    }
  }

  lemma ObjectsFollow(o: Objects, now: Objects, root: Path, x: Path, y: Path, z: Path)
    requires Named(root + x) && Named(root + y) && Named(root + z) && y <= z
    requires CleanMove(Segments(o), root + x, root + y) && Relocate(o, Join(root + x), Join(root + y)) == Some(now)
    ensures SameObject(o, Join(root + (x + z[|y|..])), now, Join(root + z))
  {
    hide Join, CleanMove, Relocate, SameObject;
    var rest := z[|y|..];
    assert z == y + rest && root + y + rest == root + z && root + x + rest == root + (x + rest);
    assert forall s | s in rest :: s in root + z;
    MovedContents(o, now, root + x, root + y, rest);
  }

  lemma NamedPaths(c: Cipher, root: Path, p: AdapterPath, x: Path)
    requires Named(root) && Spells(c, p, x)
    ensures Named(root + x) && (p.Names? ==> |x| == |p.names|)
  {
    hide DecryptName;
    SpelledIsTidy(c, p, x);
    assert forall s | s in x :: Plain(s);
  }

  lemma PrefixesRead(c: Cipher, root: Path, a: Logical, x: Path, l: Logical, z: Path)
    requires Reads(c, x, a) && Reads(c, z, l) && !(a <= l)
    ensures !(root + x <= root + z)
  {
    hide DecryptName;
    RootedPrefix(root, x, z);
    if x <= z { ReadsPrefix(c, x, a, z, l); }
  }

  /** What Read promises of its result. */
  ghost predicate ReadOf(c: Cipher, root: Path, o: Objects, p: AdapterPath, r: ReadResult, x: Path) {
    && (r.Decrypted? ==>
          Means(c, Segments(o), root, p, x) && Join(root + x) in o && r.d == Decode(c, o[Join(root + x)]))
    && (r.NoSuchFile? ==> forall x' :: Means(c, Segments(o), root, p, x') ==> Join(root + x') !in o)
  }

  /** Two readings of what one path stands for, before and after it moved, agree. */
  lemma SameReading(c: Cipher, o: Objects, now: Objects, root: Path, a: Logical, x: Path, b: Logical, y: Path,
                    rest: Logical, before: ReadResult, w: Path, after: ReadResult, z: Path)
    requires Named(root) && SiblingsDistinct(c, Segments(o), root) && Fresh(c, Segments(o), root, b)
    requires Unnested(Names(a), Names(b)) && NotBoth(c, Segments(o), root, a)
    requires Resolves(c, Segments(o), root, a, x) && Drawn(c, Segments(o), root, Names(b), y)
    requires Relocate(o, Join(root + x), Join(root + y)) == Some(now)
    requires ReadOf(c, root, o, Names(a + rest), before, w) && ReadOf(c, root, now, Names(b + rest), after, z)
    requires !before.ReadFailed? && !after.ReadFailed?
    ensures after == before
  {
    hide Join, Segments, DecryptName, Live, Reads, Relocate, SiblingsDistinct, Fresh, NotBoth, Decode, Drawn;
    var t := Segments(o);
    assert (b + rest)[|b|..] == rest;
    if after.Decrypted? {
      RenameKeepsContents(c, o, now, root, a, x, b, y, b + rest, z);
      if before.Decrypted? { ResolvesUnique(c, t, root, a + rest, w, x + z[|y|..]); }
    } else if before.Decrypted? {
      MovedAlong(c, o, now, root, a, x, b, y, rest, w);
      var z' := y + w[|x|..];
      assert x + z'[|y|..] == w;
      assert Means(c, Segments(now), root, Names(b + rest), z');
      RenameKeepsContents(c, o, now, root, a, x, b, y, b + rest, z');
    }
  }

  /** What resolved below the old path resolves below the new one. */
  lemma MovedAlong(c: Cipher, o: Objects, now: Objects, root: Path, a: Logical, x: Path, b: Logical, y: Path,
                   rest: Logical, w: Path)
    requires Named(root) && SiblingsDistinct(c, Segments(o), root) && Fresh(c, Segments(o), root, b)
    requires Unnested(Names(a), Names(b)) && NotBoth(c, Segments(o), root, a)
    requires Resolves(c, Segments(o), root, a, x) && Drawn(c, Segments(o), root, Names(b), y)
    requires Relocate(o, Join(root + x), Join(root + y)) == Some(now)
    requires Resolves(c, Segments(o), root, a + rest, w)
    ensures x <= w && b + rest != [] && Resolves(c, Segments(now), root, b + rest, y + w[|x|..])
  {
    hide Join, Segments, DecryptName, Live, Relocate, SiblingsDistinct, Fresh, NotBoth, AfterRename, KeptBy;
    var t := Segments(o);
    assert (a + rest)[..|a|] == a && (b + rest)[|b|..] == rest;
    ResolvesInit(c, t, root, a + rest, w, |a|);
    ResolvesUnique(c, t, root, a, w[..|a|], x);
    FreshRenames(c, t, root, a, x, b, y);
    NamedPaths(c, root, Names(a), x);
    NamedPaths(c, root, Names(b), y);
    StoreRenameIsTreeRename(c, o, root, a, x, b, y);
    var z := y + w[|x|..];
    assert x + z[|y|..] == w && b <= b + rest;
    RenameResolves(c, t, root, a, x, b, y, b + rest, z);
  }

  /**
   * Reading a path below an entry before a rename, and the corresponding path
   * below its new name after it, gives the same bytes or the same absence.
   */
  method RenameThenRead(adapter: EncryptedStorageAdapter, a: Logical, b: Logical, rest: Logical, iv: Bytes)
    returns (before: ReadResult, m: MoveResult, after: ReadResult)
    requires adapter.Valid() && Lawful(adapter.cipher) && |iv| == IV_SIZE
    requires SiblingsDistinct(adapter.cipher, adapter.Keys(), adapter.root)
    requires Fresh(adapter.cipher, adapter.Keys(), adapter.root, b)
             && NotBoth(adapter.cipher, adapter.Keys(), adapter.root, a)
    requires Unnested(Names(a), Names(b))
    modifies adapter.inner.bucket
    ensures adapter.Valid()
    ensures m.Done? && !before.ReadFailed? && !after.ReadFailed? ==> after == before
    ensures old(adapter.inner.bucket.Healthy()) ==>
              && !before.ReadFailed?
              && (m.Done? <==>
                    && !old(Fresh(adapter.cipher, adapter.Keys(), adapter.root, a))
                    && old(HasParent(adapter.cipher, adapter.Keys(), adapter.root, Names(b))))
  {
    hide Shaped, AddsBelow, Join, Segments, DecryptName, Live, Reads, Relocate, AfterRename, SiblingsDistinct, Fresh,
         NotBoth, Decode, Named, Drawn;
    ghost var c, root, o := adapter.cipher, adapter.root, adapter.inner.bucket.objects;
    ghost var w, x, y, z;
    before, w := adapter.Read(Names(a + rest));
    m, x, y := adapter.Rename(Names(a), Names(b), iv);
    ghost var now := adapter.inner.bucket.objects;
    if m.Done? {
      FreshRenames(c, Segments(o), root, a, x, b, y);
      RenameKeepsDistinct(c, Segments(o), root, a, x, b, y);
    }
    after, z := adapter.Read(Names(b + rest));
    if m.Done? && !before.ReadFailed? && !after.ReadFailed? {
      SameReading(c, o, now, root, a, x, b, y, rest, before, w, after, z);
    }
  }

  /**
   * Renaming a path that is a file and a directory at once moves the file's key
   * alone: everything that resolved still does, the path itself as the directory
   * it was, and besides only the new path.
   */
  lemma RenameOfBoth(adapter: EncryptedStorageAdapter, t: Tree, a: Logical, x: Path, b: Logical, y: Path)
    requires Unnested(Names(a), Names(b)) && b != []
    requires Resolves(adapter.cipher, t, adapter.root, a, x) && Drawn(adapter.cipher, t, adapter.root, Names(b), y)
    requires adapter.root + x in t && exists k :: k in t && adapter.root + x < k
    ensures AfterRename(t, adapter.root, x, y) == t + {adapter.root + y} - {adapter.root + x}
    ensures forall l, z ::
              Resolves(adapter.cipher, AfterRename(t, adapter.root, x, y), adapter.root, l, z) <==>
              Resolves(adapter.cipher, t, adapter.root, l, z) || (l == b && z == y)
  {
    hide DecryptName, Live;
    var c, root := adapter.cipher, adapter.root;
    ReadsApart(c, a, x, b, y);
    RootedPrefix(root, x, y);
    assert (root + y) + (root + x)[|root + x|..] == root + y;
    assert Shifted({root + x}, root + x, root + y) == {root + y};
    adapter.WrittenEntry(t, Names(b), y);
    assert t + {root + y} - {root + x} == t - {root + x} + {root + y};
    forall l, z
      ensures Resolves(c, t + {root + y} - {root + x}, root, l, z) <==> Resolves(c, t + {root + y}, root, l, z)
    {
      StillLive(t + {root + y}, root + x, root + z);
    }
  }

  lemma StillLive(t: Tree, a: Path, z: Path)
    requires exists k :: k in t && a < k
    ensures Live(t - {a}, z) <==> Live(t, z)
  {
    if Live(t, z) && z != [] {
      var k :| k in t && z <= k;
      var below :| below in t && a < below;
      assert (if k == a then below else k) in t - {a};
    }
  }

  // ----- Uploading through `.tmp` -----

  /** A file below `.tmp` named by no encrypted name keeps siblings distinct. */
  lemma TmpKeepsDistinct(c: Cipher, t: Tree, root: Path, id: string)
    requires SiblingsDistinct(c, t, root) && DecryptName(c, id).None?
    ensures SiblingsDistinct(c, t + {root + TmpPath([id])}, root)
  {
    hide DecryptName;
    TmpIsNoName(c);
    var added := root + TmpPath([id]);
    forall p: Path, e | DecryptName(c, e).Some?
      ensures Live(t + {added}, root + p + [e]) <==> Live(t, root + p + [e])
    {
      assert (root + p + [e])[|root| + |p|] == e;
    }
  }

  lemma NotBelowTmp(c: Cipher, root: Path, l: Logical, z: Path, k: Path)
    requires Reads(c, z, l) && z != [] && root + z <= k
    ensures !(root + [".tmp"] <= k)
  {
    hide DecryptName;
    TmpIsNoName(c);
    assert (root + z)[|root|] == z[0] && (root + [".tmp"])[|root|] == ".tmp";
  }

  /** What a name resolves to does not depend on keys below `.tmp`. */
  lemma WithoutTmp(c: Cipher, t: Tree, root: Path, gone: Tree)
    requires forall k | k in gone :: root + [".tmp"] <= k
    ensures forall l, z :: Resolves(c, t - gone, root, l, z) <==> Resolves(c, t, root, l, z)
  {
    hide DecryptName;
    forall l, z | Reads(c, z, l) && z != [] ensures Live(t - gone, root + z) <==> Live(t, root + z) {
      if Live(t, root + z) {
        var k :| k in t && root + z <= k;
        NotBelowTmp(c, root, l, z, k);
        assert k in t - gone;
      }
    }
  }

  lemma FewerKeepDistinct(c: Cipher, t: Tree, root: Path, gone: Tree)
    requires SiblingsDistinct(c, t, root)
    ensures SiblingsDistinct(c, t - gone, root)
  {
    hide DecryptName;
  }

  /** The store after the temporary file was written and renamed: as if it had been written in place. */
  lemma Uploaded(o: Objects, now: Objects, root: Path, x: Path, y: Path, body: Bytes)
    requires Named(root + x) && Named(root + y) && !(x <= y) && !(y <= x) && x != [] && y != []
    requires Relocate(o[Join(root + x) := body], Join(root + x), Join(root + y)) == Some(now)
    ensures now == (o - {Join(root + x)})[Join(root + y) := body]
    ensures Segments(now) == Segments(o) + {root + y} - {root + x}
  {
    hide Join, Split, Segments;
    RootedPrefix(root, x, y);
    RootedPrefix(root, y, x);
    NamedSplitJoin(root + x);
    NamedSplitJoin(root + y);
    PutIsAdd(o, root + x, body);
    RelocateIsShift(o[Join(root + x) := body], root + x, root + y);
    var t := Segments(o) + {root + x};
    assert (root + y) + (root + x)[|root + x|..] == root + y;
    assert Shifted({root + x}, root + x, root + y) == {root + y};
    assert Shift(t, root + x, root + y) == Segments(o) + {root + y} - {root + x};
  }

  /**
   * An upload: write below `.tmp` under the record's id, then rename to the
   * logical path. Exactly that path resolves besides what did before, and without
   * faults it succeeds exactly when the parent exists and every chunk fits a frame.
   */
  method Upload(adapter: EncryptedStorageAdapter, id: string, logical: Logical, iv: Bytes, ivs: seq<Bytes>,
                data: seq<Bytes>)
    returns (w: WriteResult, m: MoveResult, ghost y: Path)
    requires adapter.Valid() && Lawful(adapter.cipher) && |iv| == IV_SIZE && |id| == UUID_LENGTH && Tidy([id])
    requires |ivs| == |data| && forall i | 0 <= i < |ivs| :: |ivs[i]| == IV_SIZE
    requires SiblingsDistinct(adapter.cipher, adapter.Keys(), adapter.root)
    requires Fresh(adapter.cipher, adapter.Keys(), adapter.root, logical)
    modifies adapter.inner.bucket
    ensures adapter.Valid()
    ensures m.Done? ==>
              && w.Written? && Writable(adapter.cipher, ivs, data)
              && adapter.inner.bucket.objects ==
                   (old(adapter.inner.bucket.objects) - {Join(adapter.root + TmpPath([id]))})
                   [Join(adapter.root + y) := Blob(adapter.cipher, ivs, data)]
              && SiblingsDistinct(adapter.cipher, adapter.Keys(), adapter.root)
              && forall l, x ::
                   Resolves(adapter.cipher, adapter.Keys(), adapter.root, l, x) <==>
                   Resolves(adapter.cipher, old(adapter.Keys()), adapter.root, l, x) || (l == logical && x == y)
    ensures old(adapter.inner.bucket.Healthy()) ==>
              (m.Done? <==> old(HasParent(adapter.cipher, adapter.Keys(), adapter.root, Names(logical)))
                            && Writable(adapter.cipher, ivs, data))
  {
    hide Shaped, AddsBelow, Join, Segments, DecryptName, Live, Reads, Relocate, AfterRename, SiblingsDistinct, Blob,
         Frame, Named;
    ghost var c, root, o := adapter.cipher, adapter.root, adapter.inner.bucket.objects;
    ghost var t := Segments(o);
    ghost var x, tmp;
    y := [];
    UuidIsNoName(c, id);
    TmpKeepsDistinct(c, t, root, id);
    adapter.FreshIsNotRoot(t, logical);
    w, tmp := adapter.Write(Temporary([id]), iv, ivs, data);
    if !w.Written? { return w, MoveFailed, y; }
    m, x, y := adapter.Rename(Temporary([id]), Names(logical), iv);
    if m.Done? {
      NamedPaths(c, root, Temporary([id]), x);
      NamedPaths(c, root, Names(logical), y);
      UnnestedApart(c, Temporary([id]), x, Names(logical), y);
      Uploaded(o, adapter.inner.bucket.objects, root, x, y, Blob(c, ivs, data));
      UploadedTree(adapter, t, root, id, logical, y);
    }
  }

  lemma UploadedTree(adapter: EncryptedStorageAdapter, t: Tree, root: Path, id: string, logical: Logical, y: Path)
    requires root == adapter.root && logical != []
    requires SiblingsDistinct(adapter.cipher, t, root) && Fresh(adapter.cipher, t, root, logical)
    requires Drawn(adapter.cipher, t, root, Names(logical), y)
    ensures var now := t + {root + y} - {root + TmpPath([id])};
            && SiblingsDistinct(adapter.cipher, now, root)
            && forall l, x ::
                 Resolves(adapter.cipher, now, root, l, x) <==>
                 Resolves(adapter.cipher, t, root, l, x) || (l == logical && x == y)
  {
    hide DecryptName, Live, SiblingsDistinct, Fresh, Resolves;
    var gone := {root + TmpPath([id])};
    assert root + [".tmp"] <= root + TmpPath([id]);
    adapter.WrittenEntry(t, Names(logical), y);
    adapter.FreshEntryKeepsDistinct(t, {root + y}, logical, y);
    WithoutTmp(adapter.cipher, t + {root + y}, root, gone);
    FewerKeepDistinct(adapter.cipher, t + {root + y}, root, gone);
  }

  /** What is uploaded to a fresh path is what is read from it. */
  method UploadThenRead(adapter: EncryptedStorageAdapter, id: string, logical: Logical, iv: Bytes, ivs: seq<Bytes>,
                        data: seq<Bytes>)
    returns (m: MoveResult, r: ReadResult)
    requires adapter.Valid() && Lawful(adapter.cipher) && |iv| == IV_SIZE && |id| == UUID_LENGTH && Tidy([id])
    requires |ivs| == |data| && forall i | 0 <= i < |ivs| :: |ivs[i]| == IV_SIZE
    requires SiblingsDistinct(adapter.cipher, adapter.Keys(), adapter.root)
    requires Fresh(adapter.cipher, adapter.Keys(), adapter.root, logical)
    modifies adapter.inner.bucket
    ensures adapter.Valid()
    ensures m.Done? && !r.ReadFailed? ==> r == Decrypted(Decoded(data, None))
  {
    hide Shaped, AddsBelow, Join, Segments, DecryptName, Live, Reads, SiblingsDistinct, Blob, Frame, Decode, Fresh,
         Named;
    ghost var c, root := adapter.cipher, adapter.root;
    ghost var w, y, found;
    w, m, y := Upload(adapter, id, logical, iv, ivs, data);
    r, found := adapter.Read(Names(logical));
    if m.Done? {
      assert Resolves(c, adapter.Keys(), root, logical, y);
      assert Means(c, adapter.Keys(), root, Names(logical), y);
      if r.Decrypted? { adapter.MeansUnique(Names(logical), found, y); }
      RoundTrip(c, ivs, data);
    }
  }
}
