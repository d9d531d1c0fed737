/** What an encrypted section's listing shows. */
module EncryptedListing {
  import opened Common
  import opened EncryptedAdapter
  import opened EncryptedNames
  import opened EncryptedStream
  import opened EncryptedTree
  import opened ObjectStore
  import opened ObjectStoreSpec
  import opened ObjectTree
  import opened StoragePaths

  datatype PlainNode = PlainNode(name: Name, isDir: bool, size: nat)

  /** The entries; or nothing is at the path; or the store or a damaged blob made the listing raise. */
  datatype Listing = Shows(nodes: seq<PlainNode>) | NoDirectory | Raised

  /** One entry for a stored node whose name decrypts: its name, and the plaintext length of a file. */
  ghost predicate ShownAs(c: Cipher, o: Objects, x: Path, n: Node, m: PlainNode) {
    && DecryptName(c, n.name) == Some(m.name) && m.isDir == n.isDir
    && (n.isDir ==> m.size == n.size)
    && (!n.isDir ==>
          && Join(x + [n.name]) in o
          && var d := Decode(c, o[Join(x + [n.name])]);
             d.error.None? && m.size == |Flatten(d.chunks)|)
  }

  /** The entries are those of the nodes in `kept`, which are the nodes below x whose names decrypt, each once. */
  ghost predicate ListingOf(c: Cipher, o: Objects, x: Path, kept: seq<Node>, nodes: seq<PlainNode>) {
    && |kept| == |nodes| && (forall i | 0 <= i < |kept| :: ShownAs(c, o, x, kept[i], nodes[i]))
    && (forall i, j | 0 <= i < j < |kept| :: kept[i] != kept[j])
    && forall n :: n in kept <==> n in Nodes(o, Prefix(Join(x))) && DecryptName(c, n.name).Some?
  }

  ghost predicate NamesDistinct(nodes: seq<PlainNode>) {
    forall i, j | 0 <= i < j < |nodes| :: (nodes[i].name, nodes[i].isDir) != (nodes[j].name, nodes[j].isDir)
  }

  /** No two files, and no two directories, at a path have encrypted names of one name. */
  ghost predicate NoTwins(c: Cipher, t: Tree, x: Path) {
    forall e, e', isDir |
      && (e, isDir) in Children(t, x) && (e', isDir) in Children(t, x)
      && DecryptName(c, e).Some? && DecryptName(c, e) == DecryptName(c, e') :: e == e'
  }

  ghost predicate ShowsName(nodes: seq<PlainNode>, name: Name, isDir: bool) {
    exists m :: m in nodes && m.name == name && m.isDir == isDir
  }

  ghost predicate HasName(c: Cipher, t: Tree, x: Path, name: Name, isDir: bool) {
    exists e :: (e, isDir) in Children(t, x) && DecryptName(c, e) == Some(name)
  }

  /** The entries show the readable names of what is at the path, each with what it is, and nothing else. */
  ghost predicate NamesOf(c: Cipher, t: Tree, x: Path, nodes: seq<PlainNode>) {
    forall name, isDir :: ShowsName(nodes, name, isDir) <==> HasName(c, t, x, name, isDir)
  }

  lemma ListedNames(c: Cipher, o: Objects, x: Path, kept: seq<Node>, nodes: seq<PlainNode>)
    requires Named(x) && ListingOf(c, o, x, kept, nodes)
    ensures NamesOf(c, Segments(o), x, nodes)
  {
    hide Segments, Children, Nodes, DecryptName, Decode, Join, ListingOf;
    KeptLength(c, o, x, kept, nodes);
    forall name, isDir ensures ShowsName(nodes, name, isDir) <==> HasName(c, Segments(o), x, name, isDir) {
      if ShowsName(nodes, name, isDir) {
        var m :| m in nodes && m.name == name && m.isDir == isDir;
        var i :| 0 <= i < |nodes| && nodes[i] == m;
        KeptIsChild(c, o, x, kept, nodes, i);
      }
      if HasName(c, Segments(o), x, name, isDir) {
        var e :| (e, isDir) in Children(Segments(o), x) && DecryptName(c, e) == Some(name);
        var i := ChildIsKept(c, o, x, kept, nodes, e, isDir);
        assert nodes[i] in nodes;
      }
    }
  }

  lemma KeptLength(c: Cipher, o: Objects, x: Path, kept: seq<Node>, nodes: seq<PlainNode>)
    requires ListingOf(c, o, x, kept, nodes)
    ensures |kept| == |nodes|
  {
  }

  /** No readable name is at anything a path resolves to. */
  ghost predicate Barren(adapter: EncryptedStorageAdapter, p: AdapterPath)
    reads adapter.inner.bucket`objects
  {
    forall z, name, isDir | Means(adapter.cipher, adapter.Keys(), adapter.root, p, z) ::
      !HasName(adapter.cipher, adapter.Keys(), adapter.root + z, name, isDir)
  }

  lemma NothingBelow(c: Cipher, o: Objects, x: Path, name: Name, isDir: bool)
    requires Named(x) && Below(o, Prefix(Join(x))) == {}
    ensures !HasName(c, Segments(o), x, name, isDir)
  {
    hide Segments, Children, DecryptName, Join;
    forall e ensures (e, isDir) !in Children(Segments(o), x) {
      NodesAreChildren(o, x, e, isDir);
    }
  }

  /** Where nothing resolves, or nothing lies below the one path that does. */
  lemma NothingToList(adapter: EncryptedStorageAdapter, p: AdapterPath, at: Option<Path>)
    requires SiblingsDistinct(adapter.cipher, adapter.Keys(), adapter.root)
    requires at.None? ==> p.Names? && Fresh(adapter.cipher, adapter.Keys(), adapter.root, p.names)
    requires at.Some? ==>
               && Named(adapter.root + at.value)
               && Means(adapter.cipher, adapter.Keys(), adapter.root, p, at.value)
               && Below(adapter.inner.bucket.objects, Prefix(Join(adapter.root + at.value))) == {}
    ensures Barren(adapter, p)
  {
    hide Resolves, SiblingsDistinct, Join, Below, Segments, HasName;
    forall z, name, isDir | Means(adapter.cipher, adapter.Keys(), adapter.root, p, z)
      ensures !HasName(adapter.cipher, adapter.Keys(), adapter.root + z, name, isDir)
    {
      adapter.MeansUnique(p, z, at.value);
      NothingBelow(adapter.cipher, adapter.inner.bucket.objects, adapter.root + z, name, isDir);
    }
  }

  /** The listed names are distinct exactly when there are no twins. */
  lemma ListedNamesDistinct(c: Cipher, o: Objects, x: Path, kept: seq<Node>, nodes: seq<PlainNode>)
    requires Named(x) && ListingOf(c, o, x, kept, nodes)
    ensures NamesDistinct(nodes) <==> NoTwins(c, Segments(o), x)
  {
    hide Segments, Children, Nodes, DecryptName, Decode, Join;
    if NoTwins(c, Segments(o), x) {
      forall i, j | 0 <= i < j < |nodes| ensures (nodes[i].name, nodes[i].isDir) != (nodes[j].name, nodes[j].isDir) {
        KeptIsChild(c, o, x, kept, nodes, i);
        KeptIsChild(c, o, x, kept, nodes, j);
        if kept[i].name == kept[j].name && kept[i].isDir == kept[j].isDir {
          NodesDiffer(o, Prefix(Join(x)), kept[i], kept[j]);
        }
      }
    } else {
      var e, e', isDir :|
        && (e, isDir) in Children(Segments(o), x) && (e', isDir) in Children(Segments(o), x)
        && DecryptName(c, e).Some? && DecryptName(c, e) == DecryptName(c, e') && e != e';
      var i := ChildIsKept(c, o, x, kept, nodes, e, isDir);
      var j := ChildIsKept(c, o, x, kept, nodes, e', isDir);
      assert (nodes[i].name, nodes[i].isDir) == (nodes[j].name, nodes[j].isDir);
    }
  }

  lemma KeptIsChild(c: Cipher, o: Objects, x: Path, kept: seq<Node>, nodes: seq<PlainNode>, i: nat)
    requires Named(x) && ListingOf(c, o, x, kept, nodes) && i < |kept|
    ensures kept[i] in Nodes(o, Prefix(Join(x))) && (kept[i].name, kept[i].isDir) in Children(Segments(o), x)
    ensures DecryptName(c, kept[i].name) == Some(nodes[i].name) && kept[i].isDir == nodes[i].isDir
  {
    hide Segments, Children, Nodes, DecryptName, Decode, Join;
    assert kept[i] in kept;
    assert Node(kept[i].name, kept[i].isDir, kept[i].size) in Nodes(o, Prefix(Join(x)));
    NodesAreChildren(o, x, kept[i].name, kept[i].isDir);
  }

  lemma ChildIsKept(c: Cipher, o: Objects, x: Path, kept: seq<Node>, nodes: seq<PlainNode>, e: string, isDir: bool)
    returns (i: nat)
    requires Named(x) && ListingOf(c, o, x, kept, nodes)
    requires (e, isDir) in Children(Segments(o), x) && DecryptName(c, e).Some?
    ensures i < |kept| && kept[i].name == e && kept[i].isDir == isDir
    ensures DecryptName(c, e) == Some(nodes[i].name) && nodes[i].isDir == isDir
  {
    hide Segments, Children, Nodes, DecryptName, Decode, Join;
    NodesAreChildren(o, x, e, isDir);
    var size :| Node(e, isDir, size) in Nodes(o, Prefix(Join(x)));
    assert Node(e, isDir, size) in kept;
    i :| 0 <= i < |kept| && kept[i] == Node(e, isDir, size);
  }

  lemma FileNodeKey(o: Objects, x: Path, n: Node)
    requires Named(x) && n in Nodes(o, Prefix(Join(x))) && !n.isDir && n.name != "" && SLASH !in n.name
    ensures Join(x + [n.name]) in o
  {
    hide Split, Join;
    var prefix := Prefix(Join(x));
    var k :| k in Below(o, prefix) && NodeAt(o, prefix, k) == n;
    KeyBelow(o, x, k);
    assert Split(k)[|x|..] == [n.name];
    assert Split(k) == x + [n.name];
    SplitJoin(x + [n.name]);
    SplitInjective(k, Join(x + [n.name]));
  }

  lemma OneShown(c: Cipher, o: Objects, x: Path, n: Node, m: PlainNode)
    requires DecryptName(c, n.name) == Some(m.name) && m.isDir == n.isDir
    requires n.isDir ==> m.size == n.size
    requires !n.isDir ==>
               && Join(x + [n.name]) in o
               && var d := Decode(c, o[Join(x + [n.name])]);
                  d.error.None? && m.size == |Flatten(d.chunks)|
    ensures ShownAs(c, o, x, n, m)
  {
  }

  /** The plaintext length of one file below a directory of encrypted names. */
  method SizeOf(adapter: EncryptedStorageAdapter, parent: Path, name: string) returns (size: Option<nat>)
    requires adapter.Valid() && Tidy(parent) && Plain(name) && Trim(name)
    requires Join(adapter.root + parent + [name]) in adapter.inner.bucket.objects
    modifies adapter.inner.bucket`faults
    ensures adapter.Valid()
    ensures var d := Decode(adapter.cipher, adapter.inner.bucket.objects[Join(adapter.root + parent + [name])]);
            && (size.Some? ==> d.error.None? && size.value == |Flatten(d.chunks)|)
            && (old(adapter.inner.bucket.Healthy()) ==> (size.None? <==> d.error.Some?))
    ensures old(adapter.inner.bucket.Healthy()) ==> adapter.inner.bucket.Healthy()
  {
    hide Join, Split, ObjectKey, Decode, Flatten;
    ghost var x := parent + [name];
    assert adapter.root + x == adapter.root + parent + [name];
    assert forall s | s in x :: s in parent || s == name;
    KeyOfTidyPath(adapter.root, x);
    var blob := adapter.inner.Read(Join(parent + [name]));
    if !blob.Found? { return None; }
    var reader := new AsyncByteStream(blob.value);
    size := DecryptedFileSize(adapter.cipher, reader);
  }

  /**
   * `list`: the names that decrypt, with the plaintext sizes of files; entries
   * under other names are skipped, and a damaged blob fails the whole listing.
   */
  method List(adapter: EncryptedStorageAdapter, p: AdapterPath)
    returns (r: Listing, ghost x: Path, ghost kept: seq<Node>)
    requires adapter.Valid()
    modifies adapter.inner.bucket`faults
    ensures adapter.Valid()
    ensures r.Shows? ==>
              && Means(adapter.cipher, adapter.Keys(), adapter.root, p, x) && Named(adapter.root + x)
              && ListingOf(adapter.cipher, adapter.inner.bucket.objects, adapter.root + x, kept, r.nodes)
              && (NamesDistinct(r.nodes) <==> NoTwins(adapter.cipher, adapter.Keys(), adapter.root + x))
              && NamesOf(adapter.cipher, adapter.Keys(), adapter.root + x, r.nodes)
    ensures r.NoDirectory? && SiblingsDistinct(adapter.cipher, adapter.Keys(), adapter.root) ==> Barren(adapter, p)
    ensures old(adapter.inner.bucket.Healthy()) ==> adapter.inner.bucket.Healthy()
    ensures old(adapter.inner.bucket.Healthy()) && r.Raised? ==>
              exists key :: key in adapter.inner.bucket.objects
                            && Decode(adapter.cipher, adapter.inner.bucket.objects[key]).error.Some?
  {
    hide Join, Split, Segments, DecryptName, ObjectKey, Nodes, Live, Decode, Flatten, Tidy, ShownAs, NoTwins,
         ListingShows, NamesDistinct, NamesOf, SiblingsDistinct, Barren, Means;
    ghost var o, c, root := adapter.inner.bucket.objects, adapter.cipher, adapter.root;
    x, kept := [], [];
    var target := adapter.ResolveEncryptedPath(p);
    if target.Missing? && SiblingsDistinct(c, adapter.Keys(), root) { NothingToList(adapter, p, None); }
    if !target.At? { return if target.Missing? then NoDirectory else Raised, x, kept; }
    x := target.path;
    SpelledIsTidy(c, p, x);
    KeyOfTidyPath(root, x);
    var listed := adapter.inner.List(Join(target.path));
    if listed.DirectoryMissing? && SiblingsDistinct(c, adapter.Keys(), root) { NothingToList(adapter, p, Some(x)); }
    if listed.DirectoryMissing? { return NoDirectory, x, kept; }
    if !listed.Listed? { return Raised, x, kept; }
    var found: seq<PlainNode> := [];
    for i := 0 to |listed.nodes|
      invariant adapter.Valid() && (old(adapter.inner.bucket.Healthy()) ==> adapter.inner.bucket.Healthy())
      invariant |kept| == |found| && forall k | 0 <= k < |kept| :: ShownAs(c, o, root + x, kept[k], found[k])
      invariant forall k, j | 0 <= k < j < |kept| :: kept[k] != kept[j]
      invariant forall n :: n in kept <==> n in listed.nodes[..i] && DecryptName(c, n.name).Some?
    {
      var n := listed.nodes[i];
      assert listed.nodes[..i + 1] == listed.nodes[..i] + [n] && n in listed.nodes;
      var name := DecryptName(adapter.cipher, n.name);
      if name.Some? {
        var size := n.size;
        if !n.isDir {
          DecryptableIsTidy(c, n.name);
          FileNodeKey(o, root + x, n);
          var measured := SizeOf(adapter, target.path, n.name);
          if measured.None? { return Raised, x, kept; }
          size := measured.value;
        }
        OneShown(c, o, root + x, n, PlainNode(name.value, n.isDir, size));
        assert n !in listed.nodes[..i];
        kept, found := kept + [n], found + [PlainNode(name.value, n.isDir, size)];
      }
    }
    assert listed.nodes[..|listed.nodes|] == listed.nodes;
    ListedNamesDistinct(c, o, root + x, kept, found);
    ListedNames(c, o, root + x, kept, found);
    return Shows(found), x, kept;
  }
}
