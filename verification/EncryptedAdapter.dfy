/** The encrypting adapter over the object store: names and frames above, keys below. */
module EncryptedAdapter {
  import opened Common
  import opened EncryptedNames
  import opened EncryptedStream
  import opened EncryptedTree
  import opened ObjectStore
  import opened ObjectStoreSpec
  import opened ObjectTree
  import opened StoragePaths

  datatype Resolved = At(path: Path) | Missing | Failed

  datatype ReadResult = Decrypted(d: Decoded) | NoSuchFile | ReadFailed

  lemma {:induction false} DecodableChars(s: string)
    requires Decode64(s).Some?
    ensures forall c | c in s :: InAlphabet(c) || c == '='
  {
    hide Byte0, Byte1, Byte2;
    if s != "" {
      assert forall c | c in s :: c == s[0] || c == s[1] || c in s[2..];
      assert forall c | c in s[2..] :: c == s[2] || c in s[3..];
      assert forall c | c in s[3..] :: c == s[3] || c in s[4..];
      if s[2..] != "==" && s[3..] != "=" {
        DecodableChars(s[4..]);
      }
    }
  }

  /** A name that decrypts can stand in a path as it is. */
  lemma DecryptableIsTidy(c: Cipher, e: string)
    requires DecryptName(c, e).Some?
    ensures Plain(e) && Trim(e) && '.' !in e
  {
    DecryptableIsVisible(c, e);
    DecodableChars(PadTo4(e));
    forall ch | ch in e ensures ch != '/' && ch != '\\' && ch != '.' && !IsBlank(ch) {
      assert ch in PadTo4(e);
    }
    assert e[0] in e && e[|e| - 1] in e;
  }

  lemma ResolvedIsTidy(c: Cipher, x: Path, l: Logical)
    requires Reads(c, x, l)
    ensures Tidy(x)
  {
    forall s | s in x ensures Plain(s) && Trim(s) {
      var i :| 0 <= i < |x| && x[i] == s;
      DecryptableIsTidy(c, s);
    }
  }

  // ----- Paths as the adapter is given them -----

  type TidyPath = x: Path | Tidy(x)

  /** A path below `.tmp` is used as it stands; anywhere else the names are encrypted. */
  datatype AdapterPath = Temporary(rest: TidyPath) | Names(names: Logical)

  function TmpPath(rest: Path): Path {
    [".tmp"] + rest
  }

  /** The path in the store spells the path given, whether or not anything is there. */
  ghost predicate Spells(c: Cipher, p: AdapterPath, x: Path) {
    match p
    case Temporary(rest) => x == TmpPath(rest)
    case Names(l) => Reads(c, x, l)
  }

  /** What an existing entry's path resolves to. */
  ghost predicate Means(c: Cipher, t: Tree, root: Path, p: AdapterPath, x: Path) {
    Spells(c, p, x) && (p.Names? ==> Resolves(c, t, root, p.names, x))
  }

  /** What a new entry's path may be drawn as: the parent resolved, the last name encrypted anew. */
  ghost predicate Drawn(c: Cipher, t: Tree, root: Path, p: AdapterPath, x: Path) {
    && Spells(c, p, x)
    && (p.Names? && p.names != [] ==>
          Resolves(c, t, root, p.names[..|p.names| - 1], x[..|x| - 1]))
  }

  ghost predicate HasParent(c: Cipher, t: Tree, root: Path, p: AdapterPath) {
    p.Names? && p.names != [] ==> !Fresh(c, t, root, p.names[..|p.names| - 1])
  }

  /** Neither path lies at or below the other. */
  predicate Unnested(p: AdapterPath, q: AdapterPath) {
    match (p, q)
    case (Temporary(a), Temporary(b)) => !(a <= b) && !(b <= a)
    case (Names(a), Names(b)) => !(a <= b) && !(b <= a)
    case (Names(a), Temporary(_)) => a != []
    case (Temporary(_), Names(b)) => b != []
  }

  lemma SpelledIsTidy(c: Cipher, p: AdapterPath, x: Path)
    requires Spells(c, p, x)
    ensures Tidy(x)
  {
    hide DecryptName;
    match p
    case Temporary(rest) => assert forall s | s in x :: s == ".tmp" || s in rest;
    case Names(l) => ResolvedIsTidy(c, x, l);
  }

  lemma HiddenIsNoName(c: Cipher, name: string)
    requires Hidden(name)
    ensures DecryptName(c, name).None?
  {
    hide DecryptName;
    if DecryptName(c, name).Some? { DecryptableIsVisible(c, name); }
  }

  /** `.tmp` is no encrypted name. */
  lemma TmpIsNoName(c: Cipher)
    ensures DecryptName(c, ".tmp").None?
  {
    HiddenIsNoName(c, ".tmp");
  }

  lemma UnnestedApart(c: Cipher, p: AdapterPath, x: Path, q: AdapterPath, y: Path)
    requires Spells(c, p, x) && Spells(c, q, y) && Unnested(p, q)
    ensures !(x <= y) && !(y <= x) && x != [] && y != []
  {
    hide DecryptName;
    TmpIsNoName(c);
    match (p, q)
    case (Temporary(a), Temporary(b)) =>
      assert x[1..] == a && y[1..] == b;
    case (Names(a), Names(b)) => ReadsApart(c, a, x, b, y);
    case (Names(a), Temporary(_)) => assert x[0] != y[0];
    case (Temporary(_), Names(b)) => assert x[0] != y[0];
  }

  // ----- What stands below the root under plain names -----

  const MARKER_FILENAME := ".marker"

  /** HOMECLOUD_MARKER_V1 */
  const MARKER_PLAINTEXT: Bytes :=
    [72, 79, 77, 69, 67, 76, 79, 85, 68, 95, 77, 65, 82, 75, 69, 82, 95, 86, 49]

  /** A name without the extensions of archived files and the blanks that the job's own normalizing drops. */
  function Bare(name: string): string
    decreases |name|
  {
    if EndsWith(name, ARCHIVE_EXTENSION) then Bare(name[..|name| - |ARCHIVE_EXTENSION|])
    else if name != "" && IsBlank(name[|name| - 1]) then Bare(name[..|name| - 1])
    else name
  }

  /** Archived or not, a name that stands in the store as it is, or none at all. */
  predicate Reserved(c: Cipher, name: string) {
    var bare := Bare(name);
    bare == "" || bare == "." || bare == ".tmp" || bare == MARKER_FILENAME || DecryptName(c, bare).Some?
  }

  /** Whatever lies below the root lies below a reserved name. */
  ghost predicate Shaped(c: Cipher, t: Tree, root: Path) {
    forall k | k in t && root < k :: Reserved(c, k[|root|])
  }

  /** Nothing new outside the section. */
  ghost predicate AddsBelow(before: Tree, after: Tree, root: Path) {
    forall k | k in after && k !in before :: root <= k
  }

  /** So what one section's operations do leaves the others in shape. */
  lemma OthersStayShaped(c: Cipher, before: Tree, after: Tree, root: Path, other: Path)
    requires AddsBelow(before, after, root) && !(root <= other) && !(other <= root) && Shaped(c, before, other)
    ensures Shaped(c, after, other)
  {
    hide Reserved;
  }

  lemma SpelledIsReserved(c: Cipher, p: AdapterPath, x: Path)
    requires Spells(c, p, x) && x != []
    ensures Reserved(c, x[0])
  {
    hide DecryptName;
    if p.Names? {
      DecryptableIsTidy(c, x[0]);
      assert ARCHIVE_EXTENSION[0] == '.';
    }
  }

  /** New keys at or below a spelled path, and fewer others, keep the shape. */
  lemma StaysShaped(c: Cipher, t: Tree, t': Tree, root: Path, p: AdapterPath, x: Path)
    requires Shaped(c, t, root) && Spells(c, p, x) && x != []
    requires forall k | k in t' :: k in t || root + x[..1] <= k
    ensures Shaped(c, t', root)
  {
    hide Reserved, Spells;
    SpelledIsReserved(c, p, x);
    forall k | k in t' && root < k ensures Reserved(c, k[|root|]) {
      if k !in t { assert k[|root|] == (root + x[..1])[|root|] == x[0]; }
    }
  }

  /** The adapter's listing shows the names the tree lists. */
  lemma NodeNames(o: Objects, p: Path, name: string)
    requires Named(p)
    ensures (exists n :: n in Nodes(o, Prefix(Join(p))) && n.name == name) <==> name in ListNames(Segments(o), p)
  {
    hide Join, Split, Nodes, Segments;
    NodesAreChildren(o, p, name, true);
    NodesAreChildren(o, p, name, false);
    if n :| n in Nodes(o, Prefix(Join(p))) && n.name == name {
      assert Node(name, n.isDir, n.size) in Nodes(o, Prefix(Join(p)));
    }
    if name in ListNames(Segments(o), p) {
      var k :| k in Segments(o) && p < k && k[|p|] == name;
      assert (name, |k| > |p| + 1) in Children(Segments(o), p);
    }
    forall isDir | (name, isDir) in Children(Segments(o), p) ensures name in ListNames(Segments(o), p) {
      var k :| k in Segments(o) && p < k && Visible(k[|p|]) && name == k[|p|];
    }
  }

  class EncryptedStorageAdapter {
    const inner: S3StorageAdapter
    const cipher: Cipher
    ghost const root: Path

    ghost predicate Valid()
      reads inner.bucket
    {
      inner.bucket.Valid() && Named(root) && Join(root) == inner.rootPrefix
    }

    ghost function Keys(): Tree
      reads inner.bucket`objects
    {
      Segments(inner.bucket.objects)
    }

    constructor (inner: S3StorageAdapter, cipher: Cipher, ghost root: Path)
      requires inner.bucket.Valid() && Named(root) && Join(root) == inner.rootPrefix
      ensures Valid() && this.inner == inner && this.cipher == cipher && this.root == root
    {
      this.inner, this.cipher, this.root := inner, cipher, root;
    }

    /**
     * Walk down the listings, taking the first entry that decrypts to each
     * segment. What it finds resolves; when siblings are distinct it finds
     * whatever resolves.
     */
    method ResolveNames(logical: Logical) returns (r: Resolved)
      requires Valid()
      modifies inner.bucket`faults
      ensures Valid()
      ensures r.At? ==> Resolves(cipher, Keys(), root, logical, r.path)
      ensures r.Missing? && SiblingsDistinct(cipher, Keys(), root) ==> Fresh(cipher, Keys(), root, logical)
      ensures old(inner.bucket.Healthy()) ==> inner.bucket.Healthy() && !r.Failed?
    {
      hide Join, Split, Segments, DecryptName, ObjectKey, Nodes, ListNames, SiblingsDistinct, ListingShows;
      var parts: Path := [];
      for i := 0 to |logical|
        invariant Valid() && Resolves(cipher, Keys(), root, logical[..i], parts)
        invariant old(inner.bucket.Healthy()) ==> inner.bucket.Healthy()
      {
        ResolvedIsTidy(cipher, parts, logical[..i]);
        KeyOfTidyPath(root, parts);
        var listed := inner.List(Join(parts));
        if listed.ListFailed? || listed.ListRefused? { return Failed; }
        var nodes := if listed.Listed? then listed.nodes else [];
        NothingBelow(inner.bucket.objects, Prefix(Join(root + parts)));
        var matched := FirstMatch(nodes, logical[i]);
        forall name ensures (exists n :: n in nodes && n.name == name) <==> name in ListNames(Keys(), root + parts) {
          NodeNames(inner.bucket.objects, root + parts, name);
        }
        if matched.None? {
          if SiblingsDistinct(cipher, Keys(), root) {
            forall x ensures !Resolves(cipher, Keys(), root, logical, x) {
              if Resolves(cipher, Keys(), root, logical, x) {
                NoMatch(cipher, Keys(), root, logical, x, i, parts);
              }
            }
          }
          return Missing;
        }
        ListedIsLive(Keys(), root + parts, matched.value);
        assert root + (parts + [matched.value]) == root + parts + [matched.value];
        parts := parts + [matched.value];
      }
      assert logical[..|logical|] == logical;
      return At(parts);
    }

    /** The first entry whose name decrypts to the segment; undecryptable names are passed over. */
    method FirstMatch(nodes: seq<Node>, segment: Name) returns (matched: Option<string>)
      ensures matched.Some? ==> DecryptName(cipher, matched.value) == Some(segment)
                                && exists n :: n in nodes && n.name == matched.value
      ensures matched.None? ==> forall n | n in nodes :: DecryptName(cipher, n.name) != Some(segment)
    {
      for j := 0 to |nodes|
        invariant forall k | 0 <= k < j :: DecryptName(cipher, nodes[k].name) != Some(segment)
      {
        if DecryptName(cipher, nodes[j].name) == Some(segment) { return Some(nodes[j].name); }
      }
      return None;
    }

    lemma NothingBelow(o: Objects, prefix: string)
      ensures Below(o, prefix) == {} ==> Nodes(o, prefix) == {}
    {
    }

    /** `_resolve_encrypted_path`: the root and what lies below `.tmp` stand for themselves. */
    method ResolveEncryptedPath(p: AdapterPath) returns (r: Resolved)
      requires Valid()
      modifies inner.bucket`faults
      ensures Valid()
      ensures r.At? ==> Means(cipher, Keys(), root, p, r.path)
      ensures r.Missing? ==> p.Names?
      ensures r.Missing? && SiblingsDistinct(cipher, Keys(), root) ==> Fresh(cipher, Keys(), root, p.names)
      ensures old(inner.bucket.Healthy()) ==> inner.bucket.Healthy() && !r.Failed?
    {
      if p.Temporary? { return At(TmpPath(p.rest)); }
      r := ResolveNames(p.names);
    }

    /** `_to_encrypted_path`: the parent resolved, the leaf freshly encrypted. */
    method ToEncryptedPath(p: AdapterPath, iv: Bytes) returns (r: Resolved)
      requires Valid() && Lawful(cipher) && |iv| == IV_SIZE
      modifies inner.bucket`faults
      ensures Valid()
      ensures r.At? ==> Drawn(cipher, Keys(), root, p, r.path)
      ensures r.Missing? && SiblingsDistinct(cipher, Keys(), root) ==> !HasParent(cipher, Keys(), root, p)
      ensures old(inner.bucket.Healthy()) ==> inner.bucket.Healthy() && !r.Failed?
    {
      hide DecryptName, EncryptName, Segments, Live, Fresh, SiblingsDistinct;
      if p.Temporary? { return At(TmpPath(p.rest)); }
      if p.names == [] { return At([]); }
      var n := |p.names| - 1;
      r := ResolveNames(p.names[..n]);
      if r.At? {
        var leaf := EncryptName(cipher, iv, p.names[n]);
        NameRoundTrip(cipher, iv, p.names[n]);
        var parent := r.path;
        assert (parent + [leaf])[..n] == parent;
        assert forall i | 0 <= i < n :: (parent + [leaf])[i] == parent[i] && p.names[..n][i] == p.names[i];
        r := At(parent + [leaf]);
      }
    }

    /**
     * Write framed chunks under a fresh encrypted name; exactly that entry
     * appears in the tree. Without faults the write succeeds exactly when the
     * parent exists and every chunk fits a frame.
     */
    method Write(p: AdapterPath, iv: Bytes, ivs: seq<Bytes>, data: seq<Bytes>)
      returns (r: WriteResult, ghost path: Path)
      requires Valid() && Lawful(cipher) && |iv| == IV_SIZE
      requires |ivs| == |data| && forall i | 0 <= i < |ivs| :: |ivs[i]| == IV_SIZE
      modifies inner.bucket
      ensures Valid()
      ensures r.Written? ==>
                && Writable(cipher, ivs, data)
                && Drawn(cipher, old(Keys()), root, p, path)
                && inner.bucket.objects == old(inner.bucket.objects)[Join(root + path) := Blob(cipher, ivs, data)]
                && Keys() == old(Keys()) + {root + path}
      ensures !r.Written? ==> inner.bucket.objects == old(inner.bucket.objects)
      ensures AddsBelow(old(Keys()), Keys(), root)
              && (Shaped(cipher, old(Keys()), root) ==> Shaped(cipher, Keys(), root))
      ensures old(inner.bucket.Healthy()) ==> inner.bucket.Healthy()
      ensures old(inner.bucket.Healthy()) && SiblingsDistinct(cipher, old(Keys()), root) && p != Names([]) ==>
                (r.Written? <==> HasParent(cipher, old(Keys()), root, p) && Writable(cipher, ivs, data))
      ensures r.Written? ==> forall l, x ::
                Resolves(cipher, Keys(), root, l, x) <==>
                Resolves(cipher, old(Keys()), root, l, x) || (p == Names(l) && x == path)
    {
      hide Blob, Flatten, Frame, Join, Split, Segments, DecryptName, ObjectKey, Live, Fresh, Partition,
           SiblingsDistinct, Tidy;
      path := [];
      var target := ToEncryptedPath(p, iv);
      if !target.At? { return if target.Missing? then InvalidPath else WriteFailed, path; }
      path := target.path;
      DrawnHasParent(cipher, Keys(), root, p, path);
      SpelledIsTidy(cipher, p, path);
      KeyOfTidyPath(root, path);
      var frames, _ := EncryptStream(cipher, ivs, data);
      if frames.None? { return WriteFailed, path; }
      KeyOfEntry(root + path);
      var parts;
      r, parts := inner.Write(Join(target.path), frames.value, false);
      if r.Written? {
        PutIsAdd(old(inner.bucket.objects), root + path, Blob(cipher, ivs, data));
        WrittenEntry(old(Keys()), p, path);
        if Shaped(cipher, old(Keys()), root) { WrittenShape(old(Keys()), p, path); }
      }
    }

    lemma WrittenShape(before: Tree, p: AdapterPath, path: Path)
      requires Shaped(cipher, before, root) && Spells(cipher, p, path)
      ensures Shaped(cipher, before + {root + path}, root)
    {
      hide Reserved, Spells;
      if path != [] {
        assert root + path[..1] <= root + path;
        StaysShaped(cipher, before, before + {root + path}, root, p, path);
      }
    }

    lemma DrawnHasParent(c: Cipher, t: Tree, root: Path, p: AdapterPath, x: Path)
      requires Drawn(c, t, root, p, x)
      ensures HasParent(c, t, root, p)
    {
      hide DecryptName, Live;
      if p.Names? && p.names != [] {
        assert Resolves(c, t, root, p.names[..|p.names| - 1], x[..|x| - 1]);
      }
    }

    /** Exactly the new entry resolves besides what did before. */
    lemma Added(before: Tree, added: Tree, logical: Logical, path: Path)
      requires logical != [] && Reads(cipher, path, logical)
      requires Resolves(cipher, before, root, logical[..|logical| - 1], path[..|logical| - 1])
      requires AddsEntry(added, root + path)
      ensures forall l, x ::
                Resolves(cipher, before + added, root, l, x) <==>
                  Resolves(cipher, before, root, l, x) || (l == logical && x == path)
    {
      hide DecryptName, AddsEntry, Live;
      var n := |logical| - 1;
      assert path == path[..n] + [path[n]] && logical == logical[..n] + [logical[n]];
      assert root + path == root + path[..n] + [path[n]];
      forall l, x
        ensures Resolves(cipher, before + added, root, l, x) <==>
                  Resolves(cipher, before, root, l, x) || (l == logical && x == path)
      {
        AddResolves(cipher, before, root, logical[..n], path[..n], logical[n], path[n], added, l, x);
      }
    }

    /** Keys at the root or below `.tmp` make no name resolve. */
    lemma NothingAdded(before: Tree, added: Tree)
      requires forall k | k in added :: k == root || root + [".tmp"] <= k
      ensures forall l, x :: Resolves(cipher, before + added, root, l, x) <==> Resolves(cipher, before, root, l, x)
    {
      hide DecryptName;
      TmpIsNoName(cipher);
      forall l, x | Reads(cipher, x, l) && x != []
        ensures Live(before + added, root + x) <==> Live(before, root + x)
      {
        assert (root + x)[|root|] == x[0] && DecryptName(cipher, x[0]).Some?;
        forall k | k in added ensures !(root + x <= k) {
          assert root + [".tmp"] <= k ==> k[|root|] == ".tmp";
        }
      }
    }

    lemma WrittenEntry(before: Tree, p: AdapterPath, path: Path)
      requires Drawn(cipher, before, root, p, path)
      ensures forall l, x ::
                Resolves(cipher, before + {root + path}, root, l, x) <==>
                Resolves(cipher, before, root, l, x) || (p == Names(l) && x == path)
    {
      hide DecryptName, Live;
      if p.Names? && p.names != [] {
        WritesAndMkdirsAddEntries(root, path);
        Added(before, {root + path}, p.names, path);
      } else {
        NothingAdded(before, {root + path});
      }
    }

    lemma KeyOfEntry(x: Path)
      requires Named(x)
      ensures x != [] ==> Join(x) != "" && Join(x)[|Join(x)| - 1] != SLASH
      ensures x == [] ==> Join(x) == ""
    {
      if x != [] { SplitJoined(x, ""); }
    }

    lemma MeansUnique(p: AdapterPath, x: Path, y: Path)
      requires SiblingsDistinct(cipher, Keys(), root)
      requires Means(cipher, Keys(), root, p, x) && Means(cipher, Keys(), root, p, y)
      ensures x == y
    {
      hide Resolves, SiblingsDistinct, DecryptName;
      if p.Names? { ResolvesUnique(cipher, Keys(), root, p.names, x, y); }
    }

    /** Resolve the path and decrypt the object there as its chunks come. */
    method Read(p: AdapterPath) returns (r: ReadResult, ghost path: Path)
      requires Valid()
      modifies inner.bucket`faults
      ensures Valid()
      ensures r.Decrypted? ==>
                && Means(cipher, Keys(), root, p, path)
                && Join(root + path) in inner.bucket.objects
                && r.d == Decode(cipher, inner.bucket.objects[Join(root + path)])
      ensures r.NoSuchFile? && SiblingsDistinct(cipher, Keys(), root) ==>
                forall x :: Means(cipher, Keys(), root, p, x) ==> Join(root + x) !in inner.bucket.objects
      ensures old(inner.bucket.Healthy()) ==> inner.bucket.Healthy() && !r.ReadFailed?
    {
      hide Decode, Flatten, Join, Split, Segments, DecryptName, ObjectKey, Live, Tidy;
      path := [];
      var target := ResolveEncryptedPath(p);
      if !target.At? { return if target.Missing? then NoSuchFile else ReadFailed, path; }
      path := target.path;
      SpelledIsTidy(cipher, p, path);
      KeyOfTidyPath(root, path);
      if SiblingsDistinct(cipher, Keys(), root) {
        forall x | Means(cipher, Keys(), root, p, x) ensures x == path {
          MeansUnique(p, x, path);
        }
      }
      var blob := inner.Read(Join(target.path));
      if !blob.Found? { return if blob.NotFound? then NoSuchFile else ReadFailed, path; }
      var reader := new AsyncByteStream(blob.value);
      var d := DecryptStream(cipher, reader);
      return Decrypted(d), path;
    }

    /**
     * What is written to a fresh path is what is read from it, through names,
     * frames, parts and chunks, whatever the sizes of each.
     */
    method WriteThenRead(logical: Logical, iv: Bytes, ivs: seq<Bytes>, data: seq<Bytes>)
      returns (w: WriteResult, r: ReadResult)
      requires Valid() && Lawful(cipher) && |iv| == IV_SIZE
      requires |ivs| == |data| && forall i | 0 <= i < |ivs| :: |ivs[i]| == IV_SIZE
      requires SiblingsDistinct(cipher, Keys(), root) && Fresh(cipher, Keys(), root, logical)
      modifies inner.bucket
      ensures Valid() && SiblingsDistinct(cipher, Keys(), root)
      ensures w.Written? && !r.ReadFailed? ==> r == Decrypted(Decoded(data, None))
      ensures old(inner.bucket.Healthy()) ==>
                (w.Written? <==> HasParent(cipher, old(Keys()), root, Names(logical)) && Writable(cipher, ivs, data))
                && !r.ReadFailed?
    {
      hide Shaped, AddsBelow, Decode, Blob, Flatten, Frame, Join, Split, Segments, DecryptName, ObjectKey, Live,
           Resolves, Tidy;
      ghost var path, found;
      ghost var before := Keys();
      var p := Names(logical);
      FreshIsNotRoot(before, logical);
      w, path := Write(p, iv, ivs, data);
      if w.Written? {
        FreshEntryKeepsDistinct(before, {root + path}, logical, path);
        assert Resolves(cipher, Keys(), root, logical, path);
      }
      r, found := Read(p);
      if w.Written? {
        if r.Decrypted? { ResolvesUnique(cipher, Keys(), root, logical, found, path); }
        RoundTrip(cipher, ivs, data);
        assert w.Written? ==> Means(cipher, Keys(), root, p, path);
      }
    }

    lemma FreshIsNotRoot(t: Tree, logical: Logical)
      requires Fresh(cipher, t, root, logical)
      ensures logical != []
    {
      if logical == [] { assert Resolves(cipher, t, root, logical, []); }
    }

    lemma FreshEntryKeepsDistinct(before: Tree, added: Tree, logical: Logical, path: Path)
      requires logical != [] && Reads(cipher, path, logical)
      requires Resolves(cipher, before, root, logical[..|logical| - 1], path[..|logical| - 1])
      requires added == {root + path} && SiblingsDistinct(cipher, before, root) && Fresh(cipher, before, root, logical)
      ensures SiblingsDistinct(cipher, before + added, root)
    {
      hide DecryptName, Live, SiblingsDistinct;
      var n := |logical| - 1;
      var parent := path[..n];
      assert path == parent + [path[n]] && logical == logical[..n] + [logical[n]];
      assert root + path == root + parent + [path[n]];
      WritesAndMkdirsAddEntries(root, path);
      FreshHasNoTwin(cipher, before, root, logical[..n], parent, logical[n]);
      AddKeepsDistinct(cipher, before, root, logical[..n], parent, logical[n], path[n], added);
    }

    /** Make a directory under a fresh encrypted name, with its markers. */
    method Mkdir(p: AdapterPath, iv: Bytes) returns (r: MoveResult, ghost path: Path)
      requires Valid() && Lawful(cipher) && |iv| == IV_SIZE
      modifies inner.bucket
      ensures Valid()
      ensures r.Done? ==>
                && Drawn(cipher, old(Keys()), root, p, path)
                && Keys() == old(Keys()) + MkdirKeys(root, path)
      ensures r.Done? ==> forall l, x ::
                Resolves(cipher, Keys(), root, l, x) <==>
                Resolves(cipher, old(Keys()), root, l, x) || (p == Names(l) && x == path)
      ensures r.PathMissing? ==> inner.bucket.objects == old(inner.bucket.objects)
      ensures AddsBelow(old(Keys()), Keys(), root)
              && (Shaped(cipher, old(Keys()), root) ==> Shaped(cipher, Keys(), root))
      ensures old(inner.bucket.Healthy()) && SiblingsDistinct(cipher, old(Keys()), root) ==>
                (r.Done? <==> HasParent(cipher, old(Keys()), root, p))
    {
      hide Join, Split, Segments, DecryptName, ObjectKey, SafeLogicalKey, MarkerAt, Live, Fresh, Tidy, SiblingsDistinct;
      path := [];
      var target := ToEncryptedPath(p, iv);
      if !target.At? { return if target.Missing? then PathMissing else MoveFailed, path; }
      path := target.path;
      DrawnHasParent(cipher, Keys(), root, p, path);
      SpelledIsTidy(cipher, p, path);
      TidyIsSafe(path);
      ghost var made;
      r, made := inner.Mkdir(Join(target.path));
      if path != [] && made < |path| {
        MarkersOfTidyPath(root, path, made);
        KeyOfEntry(root + path[..made + 1]);
      }
      if path != [] {
        MarkersShape(old(inner.bucket.objects), p, path, made);
      }
      if r.Done? { MadeDirectory(old(inner.bucket.objects), inner.bucket.objects, p, path); }
    }

    /** However far the markers got. */
    lemma MarkersShape(o: Objects, p: AdapterPath, path: Path, made: nat)
      requires Spells(cipher, p, path) && path != [] && made <= |path|
      requires Named(root) && Tidy(path)
      ensures var after := Segments(o + EmptyObjects(MarkerKeys(Join(root), path, made)));
              AddsBelow(Segments(o), after, root) && (Shaped(cipher, Segments(o), root) ==> Shaped(cipher, after, root))
    {
      hide Join, Split, Reserved, Spells, MarkerAt, Tidy, Shaped;
      var keys := MarkerKeys(Join(root), path, made);
      var t' := Segments(o + EmptyObjects(keys));
      forall k | k in t' ensures k in Segments(o) || root + path[..1] <= k {
        var key :| key in o + EmptyObjects(keys) && Split(key) == k;
        if key !in o {
          var i :| 0 <= i < made && MarkerAt(Join(root), path, i) == Some(key);
          MarkerSegments(root, path, i);
          assert (root + path[..i + 1] + [""])[..|root| + 1] == root + path[..1];
        }
      }
      assert root <= root + path[..1];
      if Shaped(cipher, Segments(o), root) { StaysShaped(cipher, Segments(o), t', root, p, path); }
    }

    lemma MadeDirectory(o: Objects, now: Objects, p: AdapterPath, path: Path)
      requires Drawn(cipher, Segments(o), root, p, path) && Named(root) && Tidy(path)
      requires path == [] ==> now == o
      requires path != [] ==> now == o + EmptyObjects(MarkerKeys(Join(root), path, |path|))
      ensures Segments(now) == Segments(o) + MkdirKeys(root, path)
      ensures forall l, x ::
                Resolves(cipher, Segments(now), root, l, x) <==>
                Resolves(cipher, Segments(o), root, l, x) || (p == Names(l) && x == path)
    {
      hide Join, Split, Segments, DecryptName, ObjectKey, SafeLogicalKey, MarkerAt, Live, Tidy;
      if path != [] { MkdirIsAdd(o, root, path); }
      if p.Names? && path != [] {
        WritesAndMkdirsAddEntries(root, path);
        Added(Segments(o), MkdirKeys(root, path), p.names, path);
      } else {
        forall k | k in MkdirKeys(root, path) ensures root + [".tmp"] <= k {
          var i :| 0 < i <= |path| && k == root + path[..i] + [""];
          assert k[..|root| + 1] == root + [".tmp"];
        }
        NothingAdded(Segments(o), MkdirKeys(root, path));
      }
    }

    lemma TidyIsSafe(x: Path)
      requires Tidy(x)
      ensures SafeLogicalKey(Join(x)) == Some(Join(x))
      ensures x == [] <==> Join(x) == ""
      ensures x != [] ==> Split(Join(x)) == x
    {
      hide Join, Split, SafeLogicalKey;
      assert forall s | s in x :: Plain(s);
      JoinNothing();
      NothingIsSafe();
      if x != [] {
        TidyJoin(x);
        PlainJoinIsSafe(x);
        SplitJoin(x);
      }
    }

    /** Delete what the path resolves to, with everything below it. */
    method Delete(p: AdapterPath) returns (r: MoveResult, ghost x: Path)
      requires Valid()
      modifies inner.bucket`faults, inner.bucket`objects
      ensures Valid()
      ensures r.Done? ==>
                && Means(cipher, old(Keys()), root, p, x)
                && Keys() == Outside(old(Keys()), root + x)
                && var o := old(inner.bucket.objects);
                   inner.bucket.objects == o - ({Join(root + x)} + Below(o, Prefix(Join(root + x))))
      ensures r.Done? ==> forall l, z ::
                Resolves(cipher, Keys(), root, l, z) <==>
                Reads(cipher, z, l) && (z == [] || KeptBy(old(Keys()), root + x, root + z))
      ensures AddsBelow(old(Keys()), Keys(), root)
              && (Shaped(cipher, old(Keys()), root) ==> Shaped(cipher, Keys(), root))
      ensures old(inner.bucket.Healthy()) && SiblingsDistinct(cipher, old(Keys()), root)
              && (root != [] || p != Names([])) ==>
                (r.Done? <==> exists z :: Means(cipher, old(Keys()), root, p, z) && Standing(old(Keys()), root + z))
    {
      hide Join, Split, Segments, DecryptName, ObjectKey, Live, Fresh, Shaped, Tidy, SiblingsDistinct, Standing;
      x := [];
      var target := ResolveEncryptedPath(p);
      if target.Missing? && SiblingsDistinct(cipher, Keys(), root) {
        assert forall z | Means(cipher, Keys(), root, p, z) :: Resolves(cipher, Keys(), root, p.names, z);
      }
      if !target.At? { return if target.Missing? then PathMissing else MoveFailed, x; }
      x := target.path;
      SpelledIsTidy(cipher, p, x);
      KeyOfTidyPath(root, x);
      KeyOfEntry(root + x);
      if SiblingsDistinct(cipher, Keys(), root) {
        forall z | Means(cipher, Keys(), root, p, z) ensures z == x {
          MeansUnique(p, z, x);
        }
      }
      ghost var o := inner.bucket.objects;
      r := inner.Delete(Join(target.path));
      FewerKeys(o, inner.bucket.objects);
      if root + x != [] {
        DoomedSegments(o, root + x);
        if r.Done? { DeletedTree(o, root + x); }
      }
    }

    /** An object at the path or below it. */
    ghost predicate Standing(t: Tree, x: Path) {
      exists k :: k in t && x <= k
    }

    lemma FewerKeys(o: Objects, now: Objects)
      ensures now.Keys <= o.Keys ==>
                AddsBelow(Segments(o), Segments(now), root)
                && (Shaped(cipher, Segments(o), root) ==> Shaped(cipher, Segments(now), root))
    {
      hide Reserved, Split;
      assert now.Keys <= o.Keys ==> Segments(now) <= Segments(o);
    }

    lemma DoomedSegments(o: Objects, x: Path)
      requires x != [] && Named(x)
      ensures !(({Join(x)} + Below(o, Prefix(Join(x)))) !! o.Keys) <==> Standing(Segments(o), x)
    {
      hide Join, Split;
      var doomed := {Join(x)} + Below(o, Prefix(Join(x)));
      forall k | k in o ensures k in doomed <==> x <= Split(k) {
        PrefixIsAncestor(x, k);
      }
      if Standing(Segments(o), x) {
        var s :| s in Segments(o) && x <= s;
        var k :| k in o && Split(k) == s;
        assert k in doomed;
      }
      if k :| k in doomed && k in o { assert Split(k) in Segments(o); }
    }

    lemma DeletedTree(o: Objects, x: Path)
      requires x != [] && Named(x)
      ensures var now := o - ({Join(x)} + Below(o, Prefix(Join(x))));
              && Segments(now) == Outside(Segments(o), x)
              && forall z | z != [] :: Live(Segments(now), z) <==> KeptBy(Segments(o), x, z)
    {
      hide Join, Split;
      var doomed := {Join(x)} + Below(o, Prefix(Join(x)));
      var now := o - doomed;
      forall k | k in o ensures k in doomed <==> x <= Split(k) {
        PrefixIsAncestor(x, k);
      }
      forall s ensures s in Segments(now) <==> s in Outside(Segments(o), x) {
        if s in Outside(Segments(o), x) {
          var k :| k in o && Split(k) == s;
          assert k in now;
        }
      }
      forall z | z != [] ensures Live(Segments(now), z) <==> KeptBy(Segments(o), x, z) {
        if KeptBy(Segments(o), x, z) {
          var k :| k in Segments(o) && z <= k && !(x <= k);
          assert k in Outside(Segments(o), x);
        }
      }
    }

    // ----- The passphrase marker -----

    ghost predicate MarkerValid(o: Objects) {
      var key := Join(root + [MARKER_FILENAME]);
      && key in o && |o[key]| >= IV_SIZE
      && cipher.decrypt(o[key][..IV_SIZE], o[key][IV_SIZE..]) == Some(MARKER_PLAINTEXT)
    }

    lemma MarkerPath()
      requires Named(root)
      ensures ObjectKey(Join(root), MARKER_FILENAME) == Some(Join(root + [MARKER_FILENAME]))
              && Named(root + [MARKER_FILENAME])
    {
      hide ObjectKey;
      assert Join([MARKER_FILENAME]) == MARKER_FILENAME;
      KeyOfTidyPath(root, [MARKER_FILENAME]);
    }

    /** The marker under its plain name: it validates, and no path resolves that did not before. */
    method WriteMarker(iv: Bytes) returns (r: WriteResult)
      requires Valid() && Lawful(cipher) && |iv| == IV_SIZE
      modifies inner.bucket
      ensures Valid()
      ensures r.Written? ==>
                && MarkerValid(inner.bucket.objects) && Keys() == old(Keys()) + {root + [MARKER_FILENAME]}
                && forall l, x :: Resolves(cipher, Keys(), root, l, x) <==> Resolves(cipher, old(Keys()), root, l, x)
      ensures !r.Written? ==> inner.bucket.objects == old(inner.bucket.objects)
      ensures AddsBelow(old(Keys()), Keys(), root)
              && (Shaped(cipher, old(Keys()), root) ==> Shaped(cipher, Keys(), root))
      ensures old(inner.bucket.Healthy()) ==> r.Written? && inner.bucket.Healthy()
    {
      hide Join, Split, Segments, DecryptName, ObjectKey, Live, Partition;
      MarkerPath();
      KeyOfEntry(root + [MARKER_FILENAME]);
      var payload := iv + cipher.encrypt(iv, MARKER_PLAINTEXT);
      assert payload[..IV_SIZE] == iv && payload[IV_SIZE..] == cipher.encrypt(iv, MARKER_PLAINTEXT);
      assert Flatten([payload]) == payload;
      var parts;
      r, parts := inner.Write(MARKER_FILENAME, [payload], false);
      if r.Written? {
        PutIsAdd(old(inner.bucket.objects), root + [MARKER_FILENAME], payload);
        MarkerAdded(old(Keys()));
      }
    }

    lemma MarkerAdded(before: Tree)
      ensures var after := before + {root + [MARKER_FILENAME]};
              && (forall l, x :: Resolves(cipher, after, root, l, x) <==> Resolves(cipher, before, root, l, x))
              && (Shaped(cipher, before, root) ==> Shaped(cipher, after, root))
    {
      hide DecryptName;
      HiddenIsNoName(cipher, MARKER_FILENAME);
      var added := root + [MARKER_FILENAME];
      assert added[|root|] == MARKER_FILENAME && Bare(MARKER_FILENAME) == MARKER_FILENAME;
      forall l, x | Reads(cipher, x, l) && x != []
        ensures Live(before + {added}, root + x) <==> Live(before, root + x)
      {
        assert (root + x)[|root|] == x[0] && DecryptName(cipher, x[0]).Some?;
      }
    }

    /** True exactly when the marker is there and decrypts under this key. */
    method ValidateMarker() returns (ok: Option<bool>)
      requires Valid()
      modifies inner.bucket`faults
      ensures Valid()
      ensures ok.Some? ==> ok.value == MarkerValid(inner.bucket.objects)
      ensures old(inner.bucket.Healthy()) ==> inner.bucket.Healthy() && ok.Some?
    {
      hide Join, Split, ObjectKey, Flatten;
      MarkerPath();
      var blob := inner.Read(MARKER_FILENAME);
      if blob.CallFailed? { return None; }
      if blob.NotFound? { return Some(false); }
      var payload := Flatten(blob.value);
      if |payload| < IV_SIZE { return Some(false); }
      return Some(cipher.decrypt(payload[..IV_SIZE], payload[IV_SIZE..]) == Some(MARKER_PLAINTEXT));
    }

    /**
     * Rename: the old path resolved, the new one freshly encrypted, the objects
     * moved. Without faults it succeeds exactly when there is something at the
     * old path and the new one's parent exists.
     */
    method Rename(p: AdapterPath, q: AdapterPath, iv: Bytes) returns (r: MoveResult, ghost x: Path, ghost y: Path)
      requires Valid() && Lawful(cipher) && |iv| == IV_SIZE
      modifies inner.bucket
      ensures Valid()
      ensures r.Done? ==> Means(cipher, old(Keys()), root, p, x) && Drawn(cipher, old(Keys()), root, q, y)
      ensures r.Done? && Unnested(p, q) ==>
                && Relocate(old(inner.bucket.objects), Join(root + x), Join(root + y)) == Some(inner.bucket.objects)
                && Keys() == AfterRename(old(Keys()), root, x, y)
      ensures AddsBelow(old(Keys()), Keys(), root)
      ensures q != Names([]) && Shaped(cipher, old(Keys()), root) ==> Shaped(cipher, Keys(), root)
      ensures old(inner.bucket.Healthy()) && SiblingsDistinct(cipher, old(Keys()), root) && Unnested(p, q) ==>
                (r.Done? <==> Present(old(Keys()), p) && HasParent(cipher, old(Keys()), root, q))
    {
      hide Join, Split, Segments, DecryptName, ObjectKey, Live, Fresh, Relocate, AfterRename, RenameOutcome, Tidy,
           SiblingsDistinct, Movers;
      x, y := [], [];
      var from := ResolveEncryptedPath(p);
      if !from.At? { return if from.Missing? then PathMissing else MoveFailed, x, y; }
      var target := ToEncryptedPath(q, iv);
      if !target.At? { return if target.Missing? then PathMissing else MoveFailed, x, y; }
      x, y := from.path, target.path;
      DrawnHasParent(cipher, Keys(), root, q, y);
      SpelledIsTidy(cipher, p, x);
      SpelledIsTidy(cipher, q, y);
      KeyOfTidyPath(root, x);
      KeyOfTidyPath(root, y);
      KeyOfEntry(root + y);
      ghost var copied, deleted;
      r, copied, deleted := inner.Rename(Join(from.path), Join(target.path));
      if root + y != [] {
        RenamedShape(r, old(inner.bucket.objects), inner.bucket.objects, Join(root + x), q, y, copied, deleted);
      }
      if Unnested(p, q) {
        UnnestedApart(cipher, p, x, q, y);
        RenamedStore(r, old(inner.bucket.objects), inner.bucket.objects, x, y, copied, deleted);
        PresentMoves(old(Keys()), p, x);
      }
    }

    /** However far the rename got. */
    lemma RenamedShape(r: MoveResult, o: Objects, now: Objects, a: string, q: AdapterPath, y: Path, copied: seq<string>,
                       deleted: set<string>)
      requires Spells(cipher, q, y) && root + y != [] && Named(root + y)
      requires RenameOutcome(r, o, now, a, Join(root + y), copied, deleted)
      ensures AddsBelow(Segments(o), Segments(now), root)
      ensures y != [] && Shaped(cipher, Segments(o), root) ==> Shaped(cipher, Segments(now), root)
    {
      hide Join, Split, Reserved, Spells, CopyAll, Shaped, Relocate;
      var b := Join(root + y);
      NamedSplitJoin(root + y);
      if y != [] { assert (root + y)[..|root| + 1] == root + y[..1]; }
      if a !in o { CopiedKeys(o, copied, Prefix(a), Prefix(b)); }
      forall k | k in Segments(now) ensures k in Segments(o) || root + y <= k {
        var key :| key in now && Split(key) == k;
        if key !in o && key != b {
          assert Prefix(b) <= key;
          PrefixIsAncestor(root + y, key);
        }
      }
      assert root <= root + y;
      if y != [] && Shaped(cipher, Segments(o), root) { StaysShaped(cipher, Segments(o), Segments(now), root, q, y); }
    }

    /** Something is there to be renamed. */
    ghost predicate Present(t: Tree, p: AdapterPath) {
      match p
      case Temporary(rest) => Movers(t, root + TmpPath(rest)) != {}
      case Names(l) => !Fresh(cipher, t, root, l)
    }

    lemma PresentMoves(t: Tree, p: AdapterPath, x: Path)
      requires Means(cipher, t, root, p, x) && x != []
      ensures Present(t, p) <==> Movers(t, root + x) != {}
    {
      hide DecryptName;
      if p.Names? {
        var k :| k in t && root + x <= k;
        assert root + x < k || k == root + x;
        assert (if root + x in t then root + x else k) in Movers(t, root + x);
      }
    }

    lemma RenamedStore(r: MoveResult, o: Objects, now: Objects, x: Path, y: Path, copied: seq<string>,
                       deleted: set<string>)
      requires Named(root + x) && Named(root + y) && !(x <= y) && !(y <= x) && x != [] && y != []
      requires RenameOutcome(r, o, now, Join(root + x), Join(root + y), copied, deleted)
      ensures r.PathMissing? ==> Movers(Segments(o), root + x) == {}
      ensures r.Done? ==> Movers(Segments(o), root + x) != {}
      ensures r.Done? ==> Relocate(o, Join(root + x), Join(root + y)) == Some(now)
      ensures r.Done? ==> Segments(now) == AfterRename(Segments(o), root, x, y)
    {
      hide Join, Split, Segments, Moved, CopyAll, Apart, Partway, Listing, NoOverlap, Shift, Movers;
      RootedPrefix(root, x, y);
      RootedPrefix(root, y, x);
      RelocateIsShift(o, root + x, root + y);
      ApartPrefixes(root + x, root + y);
      ApartNeverOverlaps(o, Prefix(Join(root + x)), Prefix(Join(root + y)));
    }
  }
}
