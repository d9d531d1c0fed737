/** Collecting a directory for a zip download. */
module DirectoryWalk {
  import opened Common
  import opened ObjectStore
  import opened ObjectStoreSpec
  import opened ObjectTree
  import opened StoragePaths
  import opened WalkPaths

  // ----- Children -----

  /** Keys written through the adapter hold no backslash. */
  predicate WrittenKeys(o: Objects) {
    forall k | k in o :: '\\' !in k
  }

  lemma ChildrenHaveNames(o: Objects, p: Path, name: string, isDir: bool)
    requires WrittenKeys(o) && (name, isDir) in Children(Segments(o), p)
    ensures ChildName(name)
  {
    hide Split;
    var s :| s in Segments(o) && p < s && Visible(s[|p|]) && name == s[|p|];
    var k :| k in o && Split(k) == s;
    assert name in Split(k);
  }

  /** What the directories seen list. */
  ghost predicate ListedIn(t: Tree, base: Path, root: string, seen: set<Path>, e: Entry) {
    exists m, name, isDir :: m in seen && (name, isDir) in Children(t, base + m) && e == EntryAt(root, m, name, isDir)
  }

  ghost predicate Closed(t: Tree, base: Path, within: iset<Path>) {
    forall m, name | m in within && (name, true) in Children(t, base + m) :: Next(m, name) in within
  }

  ghost predicate NoDuplicates(s: seq<Entry>) {
    forall i, j | 0 <= i < j < |s| :: s[i] != s[j]
  }

  function Joins(paths: set<Path>): set<string> {
    set m | m in paths :: Join(m)
  }

  /** Directories whose paths the walk can take as they are. */
  ghost predicate AllCanon(paths: set<Path>) {
    forall m | m in paths :: Canon(m)
  }

  lemma ListedApart(o: Objects, base: Path, root: string, a: set<Path>, b: set<Path>, e: Entry)
    requires WrittenKeys(o) && AllCanon(a) && AllCanon(b) && a !! b
    ensures !(ListedIn(Segments(o), base, root, a, e) && ListedIn(Segments(o), base, root, b, e))
  {
    hide Segments, Children, EntryAt, Join;
    var t := Segments(o);
    if ListedIn(t, base, root, a, e) && ListedIn(t, base, root, b, e) {
      var m, name, isDir :| m in a && (name, isDir) in Children(t, base + m) && e == EntryAt(root, m, name, isDir);
      var m', name', isDir' :| m' in b && (name', isDir') in Children(t, base + m')
        && e == EntryAt(root, m', name', isDir');
      ChildrenHaveNames(o, base + m, name, isDir);
      ChildrenHaveNames(o, base + m', name', isDir');
      SameEntry(root, m, name, isDir, m', name', isDir');
    }
  }

  lemma NodeApart(o: Objects, base: Path, root: string, a: set<Path>, n: Path, node: Node)
    requires WrittenKeys(o) && AllCanon(a) && Canon(n) && n !in a && ChildName(node.name)
    ensures !ListedIn(Segments(o), base, root, a, EntryAt(root, n, node.name, node.isDir))
  {
    hide Segments, Children, EntryAt, Join;
    var t, e := Segments(o), EntryAt(root, n, node.name, node.isDir);
    if ListedIn(t, base, root, a, e) {
      var m, name, isDir :| m in a && (name, isDir) in Children(t, base + m) && e == EntryAt(root, m, name, isDir);
      ChildrenHaveNames(o, base + m, name, isDir);
      SameEntry(root, m, name, isDir, n, node.name, node.isDir);
    }
  }

  // ----- The walk -----

  /** The result of walking from one directory: what was listed, and that nothing was missed or listed twice. */
  ghost predicate Walked(t: Tree, base: Path, root: string, within: iset<Path>, seen: set<Path>,
                         visited0: set<string>, visited: set<string>, result: seq<Entry>)
  {
    && visited == visited0 + Joins(seen)
    && AllCanon(seen)
    && (forall m | m in seen :: m in within && Join(m) !in visited0)
    && (forall m, name | m in seen && (name, true) in Children(t, base + m) :: Join(Next(m, name)) in visited)
    && (forall e :: e in result <==> ListedIn(t, base, root, seen, e))
    && NoDuplicates(result)
  }

  ghost predicate FromNodes(root: string, n: Path, nodes: seq<Node>, e: Entry) {
    exists x :: x in nodes && e == EntryAt(root, n, x.name, x.isDir)
  }

  /** The same with the first nodes of directory n done and `seen` walked below them. */
  ghost predicate Partly(t: Tree, base: Path, root: string, within: iset<Path>, n: Path, nodes: seq<Node>,
                         seen: set<Path>, visited0: set<string>, visited: set<string>, result: seq<Entry>)
  {
    && visited == visited0 + Joins(seen)
    && AllCanon(seen)
    && (forall m | m in seen :: m in within && Join(m) !in visited0)
    && (forall m, name | m in seen && (name, true) in Children(t, base + m) :: Join(Next(m, name)) in visited)
    && (forall x | x in nodes && x.isDir :: Join(Next(n, x.name)) in visited)
    && (forall e :: e in result <==> ListedIn(t, base, root, seen, e) || FromNodes(root, n, nodes, e))
    && NoDuplicates(result)
  }

  lemma ListedInUnion(t: Tree, base: Path, root: string, a: set<Path>, b: set<Path>, e: Entry)
    ensures ListedIn(t, base, root, a + b, e) <==> ListedIn(t, base, root, a, e) || ListedIn(t, base, root, b, e)
  {
    hide EntryAt, Children;
  }

  lemma JoinsUnion(a: set<Path>, b: set<Path>)
    ensures Joins(a + b) == Joins(a) + Joins(b)
  {
    hide Join;
  }

  lemma FromOneMore(root: string, n: Path, nodes: seq<Node>, x: Node, e: Entry)
    ensures FromNodes(root, n, nodes + [x], e) <==>
              FromNodes(root, n, nodes, e) || e == EntryAt(root, n, x.name, x.isDir)
  {
    hide EntryAt;
    if e == EntryAt(root, n, x.name, x.isDir) {
      assert x in nodes + [x];
    }
    assert forall y :: y in nodes + [x] <==> y in nodes || y == x;
  }

  /** The nodes of one directory's listing. */
  ghost predicate NodesOfDirectory(o: Objects, p: Path, nodes: seq<Node>) {
    && (forall x | x in nodes :: x in Nodes(o, Prefix(Join(p))))
    && (forall i, j | 0 <= i < j < |nodes| :: nodes[i] != nodes[j])
  }

  lemma ListedNodesAreChildren(o: Objects, p: Path, x: Node)
    requires Named(p) && WrittenKeys(o) && x in Nodes(o, Prefix(Join(p)))
    ensures (x.name, x.isDir) in Children(Segments(o), p) && ChildName(x.name)
  {
    hide Segments, Children, Nodes, Join;
    assert Node(x.name, x.isDir, x.size) == x;
    NodesAreChildren(o, p, x.name, x.isDir);
    ChildrenHaveNames(o, p, x.name, x.isDir);
  }

  /** An entry and what was found inside it are new. */
  lemma NewEntries(o: Objects, base: Path, root: string, within: iset<Path>, n: Path, nodes: seq<Node>, x: Node,
                   seen: set<Path>, inside: set<Path>, visited0: set<string>, visited: set<string>,
                   result: seq<Entry>, found: seq<Entry>)
    requires WrittenKeys(o) && Named(base) && Canon(n) && Join(n) in visited0
    requires NodesOfDirectory(o, base + n, nodes + [x]) && Named(base + n)
    requires Partly(Segments(o), base, root, within, n, nodes, seen, visited0, visited, result)
    requires AllCanon(inside) && forall m | m in inside :: Join(m) !in visited
    requires NoDuplicates(found) && forall e | e in found :: ListedIn(Segments(o), base, root, inside, e)
    ensures NoDuplicates(result + [EntryAt(root, n, x.name, x.isDir)] + found)
  {
    hide Segments, Children, EntryAt, Nodes, ListedIn, Join;
    var first := EntryAt(root, n, x.name, x.isDir);
    assert (nodes + [x])[|nodes|] == x && x in nodes + [x];
    ListedNodesAreChildren(o, base + n, x);
    assert n !in seen && n !in inside;
    assert inside !! seen by {
      forall m | m in seen ensures m !in inside { assert Join(m) in Joins(seen); }
    }
    NodeApart(o, base, root, seen, n, x);
    NodeApart(o, base, root, inside, n, x);
    forall e | e in result ensures e != first && e !in found {
      if FromNodes(root, n, nodes, e) {
        var y :| y in nodes && e == EntryAt(root, n, y.name, y.isDir);
        assert y in nodes + [x];
        ListedNodesAreChildren(o, base + n, y);
        NodeApart(o, base, root, inside, n, y);
        NodesNotSame(o, base + n, root, n, nodes, x, y);
      } else {
        ListedApart(o, base, root, seen, inside, e);
      }
    }
    ConcatDistinct(result, first, found);
  }

  lemma NodesNotSame(o: Objects, p: Path, root: string, n: Path, nodes: seq<Node>, x: Node, y: Node)
    requires NodesOfDirectory(o, p, nodes + [x]) && y in nodes && Canon(n) && ChildName(x.name) && ChildName(y.name)
    ensures EntryAt(root, n, x.name, x.isDir) != EntryAt(root, n, y.name, y.isDir)
  {
    hide EntryAt, Nodes, Join;
    var i :| 0 <= i < |nodes| && nodes[i] == y;
    assert (nodes + [x])[i] == y && (nodes + [x])[|nodes|] == x;
    assert y in nodes + [x] && x in nodes + [x];
    if EntryAt(root, n, x.name, x.isDir) == EntryAt(root, n, y.name, y.isDir) {
      SameEntry(root, n, x.name, x.isDir, n, y.name, y.isDir);
      NodesDiffer(o, Prefix(Join(p)), x, y);
    }
  }

  lemma ConcatDistinct(result: seq<Entry>, first: Entry, found: seq<Entry>)
    requires NoDuplicates(result) && NoDuplicates(found) && first !in found
    requires forall e | e in result :: e != first && e !in found
    ensures NoDuplicates(result + [first] + found)
  {
    var all := result + [first] + found;
    forall i, j | 0 <= i < j < |all| ensures all[i] != all[j] {
      if i < |result| { assert result[i] in result; }
      if j > |result| { assert found[j - |result| - 1] in found; }
    }
  }

  /** One more node done, with what was walked inside it if it is a directory. */
  lemma OneMoreNode(o: Objects, base: Path, root: string, within: iset<Path>, n: Path, nodes: seq<Node>, x: Node,
                    seen: set<Path>, inside: set<Path>, visited0: set<string>, visited: set<string>,
                    visited': set<string>, result: seq<Entry>, found: seq<Entry>)
    requires WrittenKeys(o) && Named(base) && Canon(n) && Join(n) in visited0
    requires NodesOfDirectory(o, base + n, nodes + [x]) && Named(base + n)
    requires Partly(Segments(o), base, root, within, n, nodes, seen, visited0, visited, result)
    requires Walked(Segments(o), base, root, within, inside, visited, visited', found)
    requires x.isDir ==> Join(Next(n, x.name)) in visited'
    ensures Partly(Segments(o), base, root, within, n, nodes + [x], seen + inside, visited0, visited',
                   result + [EntryAt(root, n, x.name, x.isDir)] + found)
  {
    hide Segments, Children, EntryAt, Nodes, ListedIn, Join, NodesOfDirectory, FromNodes, Next;
    var t := Segments(o);
    NewEntries(o, base, root, within, n, nodes, x, seen, inside, visited0, visited, result, found);
    JoinsUnion(seen, inside);
    forall e
      ensures e in result + [EntryAt(root, n, x.name, x.isDir)] + found <==>
              ListedIn(t, base, root, seen + inside, e) || FromNodes(root, n, nodes + [x], e)
    {
      ListedInUnion(t, base, root, seen, inside, e);
      FromOneMore(root, n, nodes, x, e);
    }
    assert forall y :: y in nodes + [x] <==> y in nodes || y == x;
  }

  /** A file has nothing inside. */
  lemma NothingWalked(t: Tree, base: Path, root: string, within: iset<Path>, visited: set<string>)
    ensures Walked(t, base, root, within, {}, visited, visited, [])
  {
    hide Children, EntryAt, Join;
  }

  /** All nodes done: the directory itself joins what was seen. */
  lemma AllNodesDone(o: Objects, base: Path, root: string, within: iset<Path>, n: Path, nodes: seq<Node>,
                     seen: set<Path>, visited0: set<string>, visited: set<string>, result: seq<Entry>)
    requires WrittenKeys(o) && Named(base + n) && Canon(n) && n in within && Join(n) !in visited0
    requires forall x :: x in nodes <==> x in Nodes(o, Prefix(Join(base + n)))
    requires Partly(Segments(o), base, root, within, n, nodes, seen, visited0 + {Join(n)}, visited, result)
    ensures Walked(Segments(o), base, root, within, seen + {n}, visited0, visited, result)
  {
    hide Segments, Children, EntryAt, Nodes, Join, Next;
    var t := Segments(o);
    JoinsUnion(seen, {n});
    assert Joins({n}) == {Join(n)};
    forall name, isDir
      ensures (name, isDir) in Children(t, base + n) <==> exists x :: x in nodes && x.name == name && x.isDir == isDir
    {
      NodesAreChildren(o, base + n, name, isDir);
      if x :| x in nodes && x.name == name && x.isDir == isDir {
        assert Node(name, isDir, x.size) in Nodes(o, Prefix(Join(base + n)));
      }
    }
    forall e ensures FromNodes(root, n, nodes, e) <==> ListedIn(t, base, root, {n}, e) {
      if FromNodes(root, n, nodes, e) {
        var x :| x in nodes && e == EntryAt(root, n, x.name, x.isDir);
        assert n in {n} && (x.name, x.isDir) in Children(t, base + n);
      }
    }
    forall e ensures e in result <==> ListedIn(t, base, root, seen + {n}, e) {
      ListedInUnion(t, base, root, seen, {n}, e);
    }
    forall m, name | m in seen + {n} && (name, true) in Children(t, base + m) ensures Join(Next(m, name)) in visited {
      if m == n {
        var x :| x in nodes && x.name == name && x.isDir;
      }
    }
  }

  /** The adapter under whose root the directory lies. */
  ghost predicate Mounted(store: S3StorageAdapter, base: Path)
    reads store.bucket
  {
    store.bucket.Valid() && Named(base) && Join(base) == store.rootPrefix && WrittenKeys(store.bucket.objects)
  }

  /** A directory the walk may be sent into. */
  ghost predicate Ready(t: Tree, base: Path, n: Path) {
    && Canon(n)
    && (n == [] ==> forall name, isDir | (name, isDir) in Children(t, base) :: DotFree(name))
  }

  lemma ChildGoesDeeper(o: Objects, base: Path, n: Path, x: Node, depth: nat)
    requires WrittenKeys(o) && Named(base + n) && Ready(Segments(o), base, n) && x in Nodes(o, Prefix(Join(base + n)))
             && x.isDir
    requires forall k | k in Segments(o) :: |k| <= depth
    ensures |base| + |n| + 1 < depth
    ensures NormalizePath(JoinPath(Join(n), x.name)) == Join(Next(n, x.name))
            && Ready(Segments(o), base, Next(n, x.name))
    ensures Next(n, x.name) == n || |Next(n, x.name)| == |n| + 1
    ensures (x.name, true) in Children(Segments(o), base + n)
  {
    hide Segments, Nodes, Join, NormalizePath, Next;
    ListedNodesAreChildren(o, base + n, x);
    assert n == [] ==> base + n == base;
    NextIsNormalized(n, x.name);
    var k :| k in Segments(o) && base + n < k && x.name == k[|base + n|] && |k| > |base + n| + 1;
  }

  /**
   * `_walk_directory`: normalize, skip what was visited, list, and recurse into
   * each directory. It always ends, lists no directory twice, and returns no
   * entry twice.
   */
  method WalkDirectory(store: S3StorageAdapter, root: string, current: string, visited0: set<string>,
                       ghost base: Path, ghost n: Path, ghost depth: nat, ghost within: iset<Path>)
    returns (result: Option<seq<Entry>>, visited: set<string>, ghost seen: set<Path>)
    requires Mounted(store, base) && Ready(Segments(store.bucket.objects), base, n) && NormalizePath(current) == Join(n)
    requires forall k | k in Segments(store.bucket.objects) :: |k| <= depth
    requires n in within && Closed(Segments(store.bucket.objects), base, within)
    modifies store.bucket`faults
    ensures store.bucket.Valid()
    ensures result.Some? ==> Join(n) in visited
    ensures result.Some? ==>
              Walked(Segments(store.bucket.objects), base, root, within, seen, visited0, visited, result.value)
    ensures old(store.bucket.Healthy()) ==> store.bucket.Healthy() && result.Some?
    decreases depth - |base| - |n|, if Join(n) in visited0 then 0 else 1
  {
    hide Segments, Nodes, Join, NormalizePath, Next, Walked, Partly, Strip, ObjectKey, EntryOf, Children, ListingShows,
         NodesOfDirectory, JoinPath, Below, WrittenKeys, Plain, Trim;
    ghost var o := store.bucket.objects;
    ghost var t := Segments(o);
    var normalized := NormalizePath(current);
    visited, seen := visited0, {};
    if normalized in visited {
      NothingWalked(t, base, root, within, visited);
      return Some([]), visited, seen;
    }
    visited := visited + {normalized};
    KeyOfPlainPath(base, n);
    var listing := store.List(normalized);
    if listing.ListRefused? || listing.ListFailed? { return None, visited, seen; }
    var nodes := if listing.Listed? then listing.nodes else [];
    ListingOf(o, base + n, nodes);
    NothingDone(t, base, root, within, n, visited);
    var entries: seq<Entry> := [];
    for i := 0 to |nodes|
      invariant store.bucket.Valid() && (old(store.bucket.Healthy()) ==> store.bucket.Healthy())
      invariant Partly(t, base, root, within, n, nodes[..i], seen, visited0 + {normalized}, visited, entries)
    {
      var x := nodes[i];
      assert nodes[..i + 1] == nodes[..i] + [x];
      FirstNodes(o, base + n, nodes, i + 1);
      var entry := EntryOf(root, normalized, x.name, x.isDir);
      assert entry == EntryAt(root, n, x.name, x.isDir);
      ghost var before := visited;
      if x.isDir {
        ChildGoesDeeper(o, base, n, x, depth);
        VisitedStays(t, base, root, within, n, nodes[..i], seen, visited0 + {normalized}, visited, entries);
        var storagePath := JoinPath(normalized, x.name);
        var found;
        ghost var inside;
        found, visited, inside := WalkDirectory(store, root, storagePath, visited, base, Next(n, x.name), depth,
                                                within);
        if found.None? { return None, visited, seen; }
        OneMoreNode(o, base, root, within, n, nodes[..i], x, seen, inside, visited0 + {normalized}, before, visited,
                    entries, found.value);
        seen := seen + inside;
        entries := entries + [entry] + found.value;
      } else {
        NothingWalked(t, base, root, within, visited);
        OneMoreNode(o, base, root, within, n, nodes[..i], x, seen, {}, visited0 + {normalized}, visited, visited,
                    entries, []);
        assert seen + {} == seen && entries + [entry] + [] == entries + [entry];
        entries := entries + [entry];
      }
    }
    assert nodes[..|nodes|] == nodes;
    AllNodesDone(o, base, root, within, n, nodes, seen, visited0, visited, entries);
    VisitedStays(t, base, root, within, n, nodes, seen, visited0 + {normalized}, visited, entries);
    seen := seen + {n};
    return Some(entries), visited, seen;
  }

  lemma ListingOf(o: Objects, p: Path, nodes: seq<Node>)
    requires nodes == [] || forall x | x in nodes :: x in Nodes(o, Prefix(Join(p)))
    requires forall i, j | 0 <= i < j < |nodes| :: nodes[i] != nodes[j]
    ensures NodesOfDirectory(o, p, nodes)
    ensures Below(o, Prefix(Join(p))) == {} ==> Nodes(o, Prefix(Join(p))) == {}
  {
    hide Join;
  }

  lemma NothingDone(t: Tree, base: Path, root: string, within: iset<Path>, n: Path, visited: set<string>)
    ensures Partly(t, base, root, within, n, [], {}, visited, visited, [])
  {
    hide Children, EntryAt, Join;
  }

  lemma FirstNodes(o: Objects, p: Path, nodes: seq<Node>, i: nat)
    requires i <= |nodes| && NodesOfDirectory(o, p, nodes)
    ensures NodesOfDirectory(o, p, nodes[..i])
  {
    hide Nodes, Join;
    assert forall x | x in nodes[..i] :: x in nodes;
  }

  lemma VisitedStays(t: Tree, base: Path, root: string, within: iset<Path>, n: Path, nodes: seq<Node>, seen: set<Path>,
                     visited0: set<string>, visited: set<string>, result: seq<Entry>)
    requires Partly(t, base, root, within, n, nodes, seen, visited0, visited, result)
    ensures visited0 <= visited
  {
    hide Children, EntryAt, Join;
  }

  // ----- Collecting a directory -----

  /** A directory at or below r, with visible names after r. */
  predicate VisibleBelow(r: Path, m: Path) {
    r <= m && forall i | |r| <= i < |m| :: Visible(m[i])
  }

  /** An entry the archive should hold: a visible child of a visible directory. */
  ghost predicate Shown(t: Tree, base: Path, r: Path, m: Path, name: string, isDir: bool) {
    VisibleBelow(r, m) && (name, isDir) in Children(t, base + m)
  }

  /** Every visible directory in which something is visible has a path that normalizing leaves alone. */
  ghost predicate ContentStable(t: Tree, base: Path, r: Path) {
    forall m, name, isDir | Shown(t, base, r, m, name, isDir) :: Stable(Join(m))
  }

  ghost predicate Complete(t: Tree, base: Path, r: Path, root: string, entries: seq<Entry>) {
    forall m, name, isDir | Shown(t, base, r, m, name, isDir) :: EntryAt(root, m, name, isDir) in entries
  }

  ghost predicate Exists(t: Tree, base: Path, r: Path, root: string, e: Entry) {
    exists m, name, isDir ::
      r <= m && Named(m) && (name, isDir) in Children(t, base + m) && e == EntryAt(root, m, name, isDir)
  }

  ghost predicate Belongs(t: Tree, base: Path, r: Path, root: string, e: Entry) {
    exists m, name, isDir :: Shown(t, base, r, m, name, isDir) && e == EntryAt(root, m, name, isDir)
  }

  /** Only at the very top can a blank before a dot lead the walk into a hidden directory. */
  ghost predicate NoHiddenTop(t: Tree, base: Path, r: Path) {
    r == [] ==> forall name | (name, true) in Children(t, base) :: Strip(name) == "" || Visible(Strip(name))
  }

  ghost function Within(t: Tree, base: Path, r: Path): iset<Path> {
    iset m: Path | r <= m && (NoHiddenTop(t, base, r) ==> VisibleBelow(r, m))
  }

  lemma {:induction false} RStripKeepsStart(s: string)
    ensures RStripBlank(s) <= s
  {
    if s != "" && IsBlank(s[|s| - 1]) { RStripKeepsStart(s[..|s| - 1]); }
  }

  lemma WithinIsClosed(o: Objects, base: Path, r: Path)
    requires WrittenKeys(o)
    ensures Closed(Segments(o), base, Within(Segments(o), base, r))
  {
    hide Segments, Children, RStripBlank, LStripBlank;
    var t := Segments(o);
    forall m, name | m in Within(t, base, r) && (name, true) in Children(t, base + m)
      ensures Next(m, name) in Within(t, base, r)
    {
      ChildrenHaveNames(o, base + m, name, true);
      RStripKeepsStart(name);
      if m == [] {
        assert base + m == base;
      }
    }
  }

  /** A directory whose name ends in a blank is listed, but not walked into. */
  lemma TrailingBlankIsMissed()
    ensures var o: Objects := map["r/a /f" := []];
            WrittenKeys(o) && Ready(Segments(o), [], ["r"]) && !ContentStable(Segments(o), [], ["r"])
  {
    hide Split, Join, NormalizePath, Stable;
    var m, k := ["r", "a "], ["r", "a ", "f"];
    BlankPath();
    var t := Segments(map["r/a /f" := []]);
    assert k in t;
    assert ("f", false) in Children(t, [] + m) by { assert [] + m < k && Visible(k[|[] + m|]); }
    assert Shown(t, [], ["r"], m, "f", false);
    JoinOne("r");
  }

  lemma BlankPath()
    ensures Split("r/a /f") == ["r", "a ", "f"] && !Stable(Join(["r", "a "]))
  {
    hide Split, NormalizePath, Stable;
    assert Join(["r", "a ", "f"]) == "r/a /f" && Join(["r", "a "]) == "r/a ";
    NamedSplitJoin(["r", "a ", "f"]);
    StableMeansTrim(["r", "a "]);
  }

  /** The depth of a tree, which bounds the recursion. */
  lemma {:induction false} DepthOf(t: Tree) returns (depth: nat)
    ensures forall k | k in t :: |k| <= depth
    decreases |t|
  {
    if t == {} {
      depth := 0;
    } else {
      var k :| k in t;
      var d := DepthOf(t - {k});
      depth := if |k| > d then |k| else d;
    }
  }

  /** What lies in a directory that was written has a proper path. */
  lemma ShownIsNamed(o: Objects, base: Path, r: Path, m: Path, name: string, isDir: bool)
    requires WrittenKeys(o) && Canon(r) && Shown(Segments(o), base, r, m, name, isDir)
    ensures Named(m) && ChildName(name)
    ensures forall s | s in m :: Plain(s)
  {
    hide Split;
    ChildrenHaveNames(o, base + m, name, isDir);
    var k :| k in Segments(o) && base + m < k && Visible(k[|base + m|]) && name == k[|base + m|];
    var key :| key in o && Split(key) == k;
    forall i | 0 <= i < |m| ensures Plain(m[i]) {
      assert m[i] == k[|base| + i] && m[i] in Split(key);
      if i < |r| { assert m[i] == r[i] && r[i] in r; }
    }
  }

  /** With stable paths the recursion reaches every directory that shows something. */
  lemma {:induction false} OpenedDirs(o: Objects, base: Path, r: Path, root: string, within: iset<Path>,
                                      seen: set<Path>, visited: set<string>, entries: seq<Entry>,
                                      m: Path, name: string, isDir: bool)
    requires WrittenKeys(o) && Ready(Segments(o), base, r) && ContentStable(Segments(o), base, r)
    requires Walked(Segments(o), base, root, within, seen, {}, visited, entries) && r in seen
    requires Shown(Segments(o), base, r, m, name, isDir)
    ensures m in seen
    decreases |m|
  {
    hide Segments, Children, Join, EntryAt, Stable, Next, Walked;
    var t := Segments(o);
    if m != r {
      var parent, last := m[..|m| - 1], m[|m| - 1];
      assert parent + [last] == m;
      ParentShows(t, base, r, m, name, isDir);
      OpenedDirs(o, base, r, root, within, seen, visited, entries, parent, last, true);
      assert Stable(Join(m));
      NextIsOpened(o, base, r, root, within, seen, visited, entries, parent, last);
    }
  }

  /** A child of an opened directory is opened too, if its path is stable. */
  lemma NextIsOpened(o: Objects, base: Path, r: Path, root: string, within: iset<Path>,
                     seen: set<Path>, visited: set<string>, entries: seq<Entry>, parent: Path, last: string)
    requires WrittenKeys(o) && Ready(Segments(o), base, r) && r <= parent
    requires Walked(Segments(o), base, root, within, seen, {}, visited, entries) && parent in seen
    requires (last, true) in Children(Segments(o), base + parent) && Stable(Join(parent + [last]))
    ensures parent + [last] in seen
  {
    hide Segments, Children, Join, EntryAt, Stable, Next, ListedIn, NoDuplicates, RStripBlank, LStripBlank;
    ChildrenHaveNames(o, base + parent, last, true);
    assert parent == [] ==> r == [] && base + parent == base;
    NextIsNormalized(parent, last);
    var m :| m in seen && Join(m) == Join(Next(parent, last));
    JoinsApart(m, parent + [last]);
  }

  lemma ParentShows(t: Tree, base: Path, r: Path, m: Path, name: string, isDir: bool)
    requires Shown(t, base, r, m, name, isDir) && m != r
    ensures Shown(t, base, r, m[..|m| - 1], m[|m| - 1], true)
  {
    var parent := m[..|m| - 1];
    var k :| k in t && base + m < k && Visible(k[|base + m|]) && name == k[|base + m|];
    assert base + parent < k && k[|base + parent|] == m[|m| - 1];
  }

  /** The walk returns every visible entry exactly when every directory that shows something has a stable path. */
  lemma CompleteWhenStable(o: Objects, base: Path, r: Path, root: string, within: iset<Path>, seen: set<Path>,
                           visited: set<string>, entries: seq<Entry>)
    requires WrittenKeys(o) && Ready(Segments(o), base, r) && r in seen
    requires Walked(Segments(o), base, root, within, seen, {}, visited, entries)
    ensures Complete(Segments(o), base, r, root, entries) <==> ContentStable(Segments(o), base, r)
  {
    hide Segments, Children, Join, EntryAt, Stable, Next;
    var t := Segments(o);
    forall m, name, isDir | Shown(t, base, r, m, name, isDir)
      ensures ContentStable(t, base, r) ==> EntryAt(root, m, name, isDir) in entries
      ensures EntryAt(root, m, name, isDir) in entries ==> Stable(Join(m))
    {
      ShownIsNamed(o, base, r, m, name, isDir);
      if ContentStable(t, base, r) {
        OpenedDirs(o, base, r, root, within, seen, visited, entries, m, name, isDir);
        assert ListedIn(t, base, root, seen, EntryAt(root, m, name, isDir));
      }
      if EntryAt(root, m, name, isDir) in entries {
        var m', name', isDir' :|
          m' in seen && (name', isDir') in Children(t, base + m')
            && EntryAt(root, m, name, isDir) == EntryAt(root, m', name', isDir');
        ChildrenHaveNames(o, base + m', name', isDir');
        SameEntry(root, m, name, isDir, m', name', isDir');
        StableMeansTrim(m);
      }
    }
  }

  lemma StartIsSeen(t: Tree, base: Path, r: Path, root: string, seen: set<Path>, visited: set<string>,
                    entries: seq<Entry>)
    requires Canon(r) && Join(r) in visited
    requires Walked(t, base, root, Within(t, base, r), seen, {}, visited, entries)
    ensures r in seen
  {
    hide Join, Children, EntryAt, Next;
    var m :| m in seen && Join(m) == Join(r);
    JoinsApart(m, r);
  }

  lemma OnlyWhatExists(o: Objects, base: Path, r: Path, root: string, seen: set<Path>, visited: set<string>,
                       entries: seq<Entry>)
    requires Walked(Segments(o), base, root, Within(Segments(o), base, r), seen, {}, visited, entries)
    ensures NoDuplicates(entries)
    ensures forall e | e in entries :: Exists(Segments(o), base, r, root, e)
    ensures NoHiddenTop(Segments(o), base, r) ==> forall e | e in entries :: Belongs(Segments(o), base, r, root, e)
  {
    hide Segments, Join, Children, EntryAt, Next, NoHiddenTop;
    var t := Segments(o);
    forall e | e in entries
      ensures Exists(t, base, r, root, e) && (NoHiddenTop(t, base, r) ==> Belongs(t, base, r, root, e))
    {
      var m, name, isDir :| m in seen && (name, isDir) in Children(t, base + m) && e == EntryAt(root, m, name, isDir);
      assert Canon(m);
      PlainIsNamed(m);
      assert m in Within(t, base, r);
    }
  }

  lemma ArcnamesApart(o: Objects, base: Path, r: Path, root: string, entries: seq<Entry>)
    requires WrittenKeys(o) && root == Join(r) && NoDuplicates(entries)
    requires forall e | e in entries :: Exists(Segments(o), base, r, root, e)
    ensures forall i, j | 0 <= i < j < |entries| :: entries[i].arcname != entries[j].arcname
  {
    hide Segments, Join, Children, EntryAt;
    var t := Segments(o);
    forall i, j | 0 <= i < j < |entries| ensures entries[i].arcname != entries[j].arcname {
      assert entries[i] in entries && entries[j] in entries;
      var m, name, isDir :|
        r <= m && Named(m) && (name, isDir) in Children(t, base + m) && entries[i] == EntryAt(root, m, name, isDir);
      var m', name', isDir' :|
        r <= m' && Named(m') && (name', isDir') in Children(t, base + m')
          && entries[j] == EntryAt(root, m', name', isDir');
      ChildrenHaveNames(o, base + m, name, isDir);
      ChildrenHaveNames(o, base + m', name', isDir');
      if entries[i].arcname == entries[j].arcname {
        ArcnamesDistinct(r, m, name, isDir, m', name', isDir');
      }
    }
  }

  /**
   * `download_directory_as_zip` up to the archive: every visible entry below the
   * directory is collected exactly when normalizing leaves the path of each
   * directory showing something alone; whatever the paths, no archive name comes
   * twice and each entry is of a child in the store.
   */
  method CollectDirectory(store: S3StorageAdapter, path: string, ghost base: Path, ghost r: Path)
    returns (entries: Option<seq<Entry>>)
    requires Mounted(store, base) && Ready(Segments(store.bucket.objects), base, r)
    requires NormalizePath(path) == Join(r)
    modifies store.bucket`faults
    ensures entries.Some? ==>
              var t := Segments(store.bucket.objects);
              && (Complete(t, base, r, Join(r), entries.value) <==> ContentStable(t, base, r))
              && (forall e | e in entries.value :: Exists(t, base, r, Join(r), e))
              && (NoHiddenTop(t, base, r) ==> forall e | e in entries.value :: Belongs(t, base, r, Join(r), e))
              && (forall i, j | 0 <= i < j < |entries.value| :: entries.value[i].arcname != entries.value[j].arcname)
    ensures store.bucket.Valid() && (old(store.bucket.Healthy()) ==> store.bucket.Healthy() && entries.Some?)
  {
    hide Segments, Children, Join, NormalizePath, EntryAt, Walked, Complete, ContentStable, Exists, Belongs,
         NoHiddenTop;
    ghost var o := store.bucket.objects;
    ghost var t := Segments(o);
    ghost var depth := DepthOf(t);
    var root := NormalizePath(path);
    WithinIsClosed(o, base, r);
    assert r in Within(t, base, r);
    NormalAgain(r);
    var visited;
    ghost var seen;
    entries, visited, seen := WalkDirectory(store, root, root, {}, base, r, depth, Within(t, base, r));
    if entries.Some? {
      StartIsSeen(t, base, r, root, seen, visited, entries.value);
      CompleteWhenStable(o, base, r, root, Within(t, base, r), seen, visited, entries.value);
      OnlyWhatExists(o, base, r, root, seen, visited, entries.value);
      ArcnamesApart(o, base, r, root, entries.value);
    }
  }
}
