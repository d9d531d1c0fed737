/** Collecting a directory of an encrypted section for a zip download. */
module PrivateWalk {
  import opened Common
  import opened EncryptedAdapter
  import opened EncryptedListing
  import opened EncryptedTree
  import opened EncryptedNames
  import opened EncryptedStream
  import opened ObjectStore
  import opened ObjectTree
  import DirectoryWalk

  /** What the walk returns for one listed name: its logical path, below the start its archive name. */
  datatype Entry = Entry(path: Logical, isDir: bool)

  ghost predicate NoDuplicates(s: seq<Entry>) {
    forall i, j | 0 <= i < j < |s| :: s[i] != s[j]
  }

  function EntryOf(l: Logical, n: PlainNode): Entry {
    Entry(l + [n.name], n.isDir)
  }

  /** Listings of directories by their logical paths. */
  type Listings = map<Logical, seq<PlainNode>>

  ghost predicate Listed(dirs: Listings, e: Entry) {
    exists l, n :: l in dirs && n in dirs[l] && e == EntryOf(l, n)
  }

  ghost predicate AllDistinct(dirs: Listings) {
    forall l | l in dirs :: NamesDistinct(dirs[l])
  }

  /** The entries are what the listings show, and none comes twice exactly when no listing shows one twice. */
  ghost predicate Collected(dirs: Listings, result: seq<Entry>) {
    (forall e :: e in result <==> Listed(dirs, e)) && (NoDuplicates(result) <==> AllDistinct(dirs))
  }

  lemma ParentOf(l: Logical, n: PlainNode, l': Logical, n': PlainNode)
    requires EntryOf(l, n) == EntryOf(l', n')
    ensures l == l' && n.name == n'.name && n.isDir == n'.isDir
  {
    var p, p' := l + [n.name], l' + [n'.name];
    assert p[..|p| - 1] == l && p'[..|p'| - 1] == l' && p[|p| - 1] == n.name && p'[|p'| - 1] == n'.name;
  }

  lemma NothingShown(l: Logical)
    ensures Collected(map[l := []], []) && Collected(map[], [])
  {
  }

  lemma DuplicatesOfBoth(a: seq<Entry>, b: seq<Entry>)
    requires forall e | e in a :: e !in b
    ensures NoDuplicates(a + b) <==> NoDuplicates(a) && NoDuplicates(b)
  {
    if NoDuplicates(a + b) {
      forall i, j | 0 <= i < j < |a| ensures a[i] != a[j] {
        assert (a + b)[i] == a[i] && (a + b)[j] == a[j];
      }
      forall i, j | 0 <= i < j < |b| ensures b[i] != b[j] {
        assert (a + b)[|a| + i] == b[i] && (a + b)[|a| + j] == b[j];
      }
    }
    if NoDuplicates(a) && NoDuplicates(b) {
      forall i, j | 0 <= i < j < |a + b| ensures (a + b)[i] != (a + b)[j] {
        if i < |a| { assert a[i] in a; }
        if j >= |a| { assert b[j - |a|] in b; }
      }
    }
  }

  /** Two walks over different directories, one after the other. */
  lemma ShowsBoth(a: Listings, b: Listings, ra: seq<Entry>, rb: seq<Entry>)
    requires Collected(a, ra) && Collected(b, rb) && a.Keys !! b.Keys
    ensures Collected(a + b, ra + rb)
  {
    hide EntryOf, NamesDistinct;
    forall e ensures Listed(a + b, e) <==> Listed(a, e) || Listed(b, e) {
      if Listed(a, e) {
        var l, n :| l in a && n in a[l] && e == EntryOf(l, n);
        assert l in a + b && (a + b)[l] == a[l];
      }
      if Listed(b, e) {
        var l, n :| l in b && n in b[l] && e == EntryOf(l, n);
        assert l in a + b && (a + b)[l] == b[l];
      }
    }
    forall e | e in ra ensures e !in rb {
      if e in rb {
        var l, n :| l in a && n in a[l] && e == EntryOf(l, n);
        var l', n' :| l' in b && n' in b[l'] && e == EntryOf(l', n');
        ParentOf(l, n, l', n');
      }
    }
    DuplicatesOfBoth(ra, rb);
    DistinctBoth(a, b);
  }

  lemma DistinctBoth(a: Listings, b: Listings)
    requires a.Keys !! b.Keys
    ensures AllDistinct(a + b) <==> AllDistinct(a) && AllDistinct(b)
  {
    hide NamesDistinct;
    if AllDistinct(a + b) {
      forall l | l in a ensures NamesDistinct(a[l]) { assert (a + b)[l] == a[l]; }
      forall l | l in b ensures NamesDistinct(b[l]) { assert (a + b)[l] == b[l]; }
    }
  }

  /** One more node of the directory being listed. */
  lemma ShowsOneMore(dirs: Listings, l: Logical, n: PlainNode, result: seq<Entry>)
    requires l in dirs && Collected(dirs, result)
    ensures Collected(dirs[l := dirs[l] + [n]], result + [EntryOf(l, n)])
  {
    hide EntryOf, NamesDistinct;
    var more, e0 := dirs[l := dirs[l] + [n]], EntryOf(l, n);
    forall e ensures Listed(more, e) <==> Listed(dirs, e) || e == e0 {
      if Listed(dirs, e) {
        var l', n' :| l' in dirs && n' in dirs[l'] && e == EntryOf(l', n');
        assert l' in more && n' in more[l'];
      }
      if e == e0 { assert n in more[l]; }
    }
    var b := [e0];
    assert NoDuplicates(result + b) <==> NoDuplicates(result) && e0 !in result by { LastIsNew(result, e0); }
    LastNameIsNew(dirs[l], n);
    assert e0 in result <==> exists m :: m in dirs[l] && m.name == n.name && m.isDir == n.isDir by {
      if e0 in result {
        var l', n' :| l' in dirs && n' in dirs[l'] && e0 == EntryOf(l', n');
        ParentOf(l', n', l, n);
      }
      if m :| m in dirs[l] && m.name == n.name && m.isDir == n.isDir {
        SameNameSameEntry(l, m, n);
        assert Listed(dirs, e0);
      }
    }
    DistinctElsewhere(dirs, l, n);
  }

  lemma SameNameSameEntry(l: Logical, m: PlainNode, n: PlainNode)
    requires m.name == n.name && m.isDir == n.isDir
    ensures EntryOf(l, m) == EntryOf(l, n)
  {
  }

  lemma DistinctElsewhere(dirs: Listings, l: Logical, n: PlainNode)
    requires l in dirs
    ensures AllDistinct(dirs[l := dirs[l] + [n]]) && NamesDistinct(dirs[l]) ==> AllDistinct(dirs)
    ensures AllDistinct(dirs) && NamesDistinct(dirs[l] + [n]) ==> AllDistinct(dirs[l := dirs[l] + [n]])
    ensures AllDistinct(dirs[l := dirs[l] + [n]]) ==> NamesDistinct(dirs[l] + [n])
  {
    hide NamesDistinct;
    var more := dirs[l := dirs[l] + [n]];
    if AllDistinct(more) {
      assert more[l] == dirs[l] + [n];
      forall l' | l' in dirs && l' != l ensures NamesDistinct(dirs[l']) { assert more[l'] == dirs[l']; }
    }
  }

  lemma LastIsNew(s: seq<Entry>, e: Entry)
    ensures NoDuplicates(s + [e]) <==> NoDuplicates(s) && e !in s
  {
    var all := s + [e];
    assert all[|s|] == e;
    if NoDuplicates(all) {
      forall i, j | 0 <= i < j < |s| ensures s[i] != s[j] { assert all[i] == s[i] && all[j] == s[j]; }
      forall i | 0 <= i < |s| ensures s[i] != e { assert all[i] == s[i]; }
    }
  }

  lemma LastNameIsNew(nodes: seq<PlainNode>, n: PlainNode)
    ensures NamesDistinct(nodes + [n]) <==>
            NamesDistinct(nodes) && forall m | m in nodes :: !(m.name == n.name && m.isDir == n.isDir)
  {
    var all := nodes + [n];
    assert all[|nodes|] == n;
    if NamesDistinct(all) {
      forall i, j | 0 <= i < j < |nodes|
        ensures (nodes[i].name, nodes[i].isDir) != (nodes[j].name, nodes[j].isDir)
      {
        assert all[i] == nodes[i] && all[j] == nodes[j];
      }
      forall m | m in nodes ensures !(m.name == n.name && m.isDir == n.isDir) {
        var i :| 0 <= i < |nodes| && nodes[i] == m;
        assert all[i] == m && (all[i].name, all[i].isDir) != (all[|nodes|].name, all[|nodes|].isDir);
      }
    }
  }

  // ----- The walk -----

  /** Where the listed directories were found: their listings show the names there, one twice exactly for twins. */
  ghost predicate Places(adapter: EncryptedStorageAdapter, dirs: Listings, places: map<Logical, Path>)
    reads adapter.inner.bucket`objects
  {
    dirs.Keys == places.Keys
    && forall l | l in dirs ::
         && Resolves(adapter.cipher, adapter.Keys(), adapter.root, l, places[l])
         && NamesOf(adapter.cipher, adapter.Keys(), adapter.root + places[l], dirs[l])
         && (NamesDistinct(dirs[l]) <==> NoTwins(adapter.cipher, adapter.Keys(), adapter.root + places[l]))
  }

  /** New directories only, all of them visited. */
  ghost predicate Visits(dirs: Listings, visited0: set<Logical>, visited: set<Logical>) {
    visited0 <= visited && dirs.Keys <= visited && dirs.Keys !! visited0
  }

  /**
   * All listed directories are at or below `current`, every directory returned
   * was visited, and a visited one was listed unless there was nothing to list.
   */
  ghost predicate Reaches(adapter: EncryptedStorageAdapter, current: Logical, dirs: Listings,
                          visited0: set<Logical>, visited: set<Logical>, result: seq<Entry>)
    reads adapter.inner.bucket`objects
  {
    && (forall l | l in dirs :: current <= l)
    && (forall e | e in result && e.isDir :: e.path in visited)
    && (SiblingsDistinct(adapter.cipher, adapter.Keys(), adapter.root) ==>
          forall l | l in visited && l !in visited0 :: l in dirs || Barren(adapter, Names(l)))
  }

  lemma ChildFits(adapter: EncryptedStorageAdapter, l: Logical, x: Path, kept: seq<Node>, nodes: seq<PlainNode>, i: nat,
                  depth: nat)
    requires Means(adapter.cipher, adapter.Keys(), adapter.root, Names(l), x) && Named(adapter.root + x)
    requires ListingOf(adapter.cipher, adapter.inner.bucket.objects, adapter.root + x, kept, nodes)
    requires i < |nodes| && nodes[i].isDir && forall k | k in adapter.Keys() :: |k| <= depth
    ensures |adapter.root| + |l| + 1 < depth
  {
    hide Segments, DecryptName, Decode, Nodes;
    KeptIsChild(adapter.cipher, adapter.inner.bucket.objects, adapter.root + x, kept, nodes, i);
    var p := adapter.root + x;
    var k :| k in adapter.Keys() && p < k && Visible(k[|p|]) && kept[i].name == k[|p|] && |k| > |p| + 1;
  }

  /** What a walk from `current` has to show for itself. */
  ghost predicate Walked(adapter: EncryptedStorageAdapter, current: Logical, dirs: Listings,
                         places: map<Logical, Path>, visited0: set<Logical>, visited: set<Logical>,
                         result: seq<Entry>)
    reads adapter.inner.bucket`objects
  {
    && Collected(dirs, result) && Places(adapter, dirs, places) && Visits(dirs, visited0, visited)
    && Reaches(adapter, current, dirs, visited0, visited, result) && current in visited
  }

  /** A walk that has taken the nodes `taken` of its own directory. */
  ghost predicate Walking(adapter: EncryptedStorageAdapter, current: Logical, taken: seq<PlainNode>, dirs: Listings,
                          places: map<Logical, Path>, visited0: set<Logical>, visited: set<Logical>,
                          result: seq<Entry>)
    reads adapter.inner.bucket`objects
  {
    && current !in visited0 && current !in dirs && Collected(dirs[current := taken], result)
    && Places(adapter, dirs, places) && Visits(dirs, visited0 + {current}, visited)
    && Reaches(adapter, current, dirs, visited0 + {current}, visited, result)
  }

  lemma Starts(adapter: EncryptedStorageAdapter, current: Logical, visited0: set<Logical>)
    ensures current in visited0 ==> Walked(adapter, current, map[], map[], visited0, visited0, [])
    ensures current !in visited0 ==>
              Walking(adapter, current, [], map[], map[], visited0, visited0 + {current}, [])
    ensures current !in visited0 && (SiblingsDistinct(adapter.cipher, adapter.Keys(), adapter.root) ==>
                                       Barren(adapter, Names(current))) ==>
              Walked(adapter, current, map[], map[], visited0, visited0 + {current}, [])
  {
    hide SiblingsDistinct, Barren;
    NothingShown(current);
    var none: Listings := map[];
    assert none[current := []] == map[current := []];
  }

  lemma TakesFile(adapter: EncryptedStorageAdapter, current: Logical, taken: seq<PlainNode>, n: PlainNode,
                  dirs: Listings, places: map<Logical, Path>, visited0: set<Logical>, visited: set<Logical>,
                  result: seq<Entry>)
    requires Walking(adapter, current, taken, dirs, places, visited0, visited, result) && !n.isDir
    ensures Walking(adapter, current, taken + [n], dirs, places, visited0, visited, result + [EntryOf(current, n)])
  {
    hide Collected, Places, Visits, SiblingsDistinct, Barren;
    ShowsOneMore(dirs[current := taken], current, n, result);
    assert dirs[current := taken][current := taken + [n]] == dirs[current := taken + [n]];
  }

  /** A directory is taken with all that the walk into it shows. */
  lemma TakesDirectory(adapter: EncryptedStorageAdapter, current: Logical, taken: seq<PlainNode>, n: PlainNode,
                       dirs: Listings, places: map<Logical, Path>, visited0: set<Logical>, visited: set<Logical>,
                       result: seq<Entry>, inside: Listings, where: map<Logical, Path>, visited': set<Logical>,
                       found: seq<Entry>)
    requires Walking(adapter, current, taken, dirs, places, visited0, visited, result) && n.isDir
    requires Walked(adapter, current + [n.name], inside, where, visited, visited', found)
    ensures Walking(adapter, current, taken + [n], dirs + inside, places + where, visited0, visited',
                    result + [EntryOf(current, n)] + found)
  {
    hide Collected, Places, Reaches, SiblingsDistinct, Barren;
    ShowsOneMore(dirs[current := taken], current, n, result);
    assert dirs[current := taken][current := taken + [n]] == dirs[current := taken + [n]];
    ShowsBoth(dirs[current := taken + [n]], inside, result + [EntryOf(current, n)], found);
    assert dirs[current := taken + [n]] + inside == (dirs + inside)[current := taken + [n]];
    MorePlaces(adapter, dirs, places, inside, where);
    MoreReached(adapter, current, n, dirs, visited0 + {current}, visited, result, inside, visited', found);
  }

  lemma MoreReached(adapter: EncryptedStorageAdapter, current: Logical, n: PlainNode, dirs: Listings,
                    visited0: set<Logical>, visited: set<Logical>, result: seq<Entry>, inside: Listings,
                    visited': set<Logical>, found: seq<Entry>)
    requires Reaches(adapter, current, dirs, visited0, visited, result)
    requires Reaches(adapter, current + [n.name], inside, visited, visited', found)
    requires visited <= visited' && current + [n.name] in visited'
    ensures Reaches(adapter, current, dirs + inside, visited0, visited', result + [EntryOf(current, n)] + found)
  {
    hide SiblingsDistinct, Barren;
    forall l | l in dirs + inside ensures current <= l {
      assert current <= current + [n.name];
    }
  }

  lemma Finishes(adapter: EncryptedStorageAdapter, current: Logical, nodes: seq<PlainNode>, x: Path, dirs: Listings,
                 places: map<Logical, Path>, visited0: set<Logical>, visited: set<Logical>, result: seq<Entry>)
    requires Walking(adapter, current, nodes, dirs, places, visited0, visited, result)
    requires Means(adapter.cipher, adapter.Keys(), adapter.root, Names(current), x)
    requires NamesOf(adapter.cipher, adapter.Keys(), adapter.root + x, nodes)
    requires NamesDistinct(nodes) <==> NoTwins(adapter.cipher, adapter.Keys(), adapter.root + x)
    ensures Walked(adapter, current, dirs[current := nodes], places[current := x], visited0, visited, result)
  {
    hide Collected, Places, NamesOf, NamesDistinct, NoTwins, SiblingsDistinct, Barren, Means;
    OnePlace(adapter, dirs, places, current, nodes, x);
  }

  /**
   * `_walk_directory` over the encrypting adapter. It ends, lists no path twice,
   * and returns an entry twice exactly when some directory it listed has twins.
   */
  method WalkDirectory(adapter: EncryptedStorageAdapter, current: Logical, visited0: set<Logical>, ghost depth: nat)
    returns (result: Option<seq<Entry>>, visited: set<Logical>, ghost dirs: Listings, ghost places: map<Logical, Path>)
    requires adapter.Valid() && forall k | k in adapter.Keys() :: |k| <= depth
    requires |adapter.root| + |current| <= depth
    modifies adapter.inner.bucket`faults
    ensures adapter.Valid()
    ensures result.Some? ==> Walked(adapter, current, dirs, places, visited0, visited, result.value)
    ensures old(adapter.inner.bucket.Healthy()) && result.None? ==>
              exists key :: key in adapter.inner.bucket.objects
                            && Decode(adapter.cipher, adapter.inner.bucket.objects[key]).error.Some?
    ensures old(adapter.inner.bucket.Healthy()) ==> adapter.inner.bucket.Healthy()
    decreases depth - |adapter.root| - |current|
  {
    hide Segments, ListingOf, NoTwins, NamesDistinct, NamesOf, Decode, Means, Barren, SiblingsDistinct, Walked,
         Walking;
    visited, dirs, places := visited0, map[], map[];
    Starts(adapter, current, visited0);
    if current in visited { return Some([]), visited, dirs, places; }
    visited := visited + {current};
    var listing;
    ghost var x, kept;
    listing, x, kept := List(adapter, Names(current));
    if listing.Raised? { return None, visited, dirs, places; }
    if listing.NoDirectory? { return Some([]), visited, dirs, places; }
    var nodes := listing.nodes;
    var entries: seq<Entry> := [];
    for i := 0 to |nodes|
      invariant adapter.Valid() && (old(adapter.inner.bucket.Healthy()) ==> adapter.inner.bucket.Healthy())
      invariant Walking(adapter, current, nodes[..i], dirs, places, visited0, visited, entries)
    {
      var n := nodes[i];
      assert nodes[..i + 1] == nodes[..i] + [n];
      if n.isDir {
        ChildFits(adapter, current, x, kept, nodes, i, depth);
        var found, visited';
        ghost var inside, where;
        found, visited', inside, where := WalkDirectory(adapter, current + [n.name], visited, depth);
        if found.None? { return None, visited', dirs, places; }
        TakesDirectory(adapter, current, nodes[..i], n, dirs, places, visited0, visited, entries, inside, where,
                       visited', found.value);
        dirs, places, visited := dirs + inside, places + where, visited';
        entries := entries + [EntryOf(current, n)] + found.value;
      } else {
        TakesFile(adapter, current, nodes[..i], n, dirs, places, visited0, visited, entries);
        entries := entries + [EntryOf(current, n)];
      }
    }
    assert nodes[..|nodes|] == nodes;
    Finishes(adapter, current, nodes, x, dirs, places, visited0, visited, entries);
    dirs, places := dirs[current := nodes], places[current := x];
    return Some(entries), visited, dirs, places;
  }

  lemma OnePlace(adapter: EncryptedStorageAdapter, dirs: Listings, places: map<Logical, Path>, l: Logical,
                 nodes: seq<PlainNode>, x: Path)
    requires Places(adapter, dirs, places) && Means(adapter.cipher, adapter.Keys(), adapter.root, Names(l), x)
    requires NamesOf(adapter.cipher, adapter.Keys(), adapter.root + x, nodes)
    requires NamesDistinct(nodes) <==> NoTwins(adapter.cipher, adapter.Keys(), adapter.root + x)
    ensures Places(adapter, dirs[l := nodes], places[l := x])
  {
    hide Resolves, NoTwins, NamesDistinct, NamesOf;
  }

  lemma MorePlaces(adapter: EncryptedStorageAdapter, a: Listings, pa: map<Logical, Path>, b: Listings,
                   pb: map<Logical, Path>)
    requires Places(adapter, a, pa) && Places(adapter, b, pb)
    ensures Places(adapter, a + b, pa + pb)
  {
    hide Resolves, NoTwins, NamesDistinct, NamesOf;
  }

  // ----- What the archive holds -----

  /** The entry of a readable name in a readable directory at or below the start. */
  ghost predicate Stands(adapter: EncryptedStorageAdapter, start: Logical, l: Logical, x: Path, e: Entry)
    reads adapter.inner.bucket`objects
  {
    && start <= l && Resolves(adapter.cipher, adapter.Keys(), adapter.root, l, x)
    && |e.path| == |l| + 1 && l == e.path[..|l|]
    && HasName(adapter.cipher, adapter.Keys(), adapter.root + x, e.path[|l|], e.isDir)
  }

  /** Everything returned stands in the store. */
  lemma WalkedStands(adapter: EncryptedStorageAdapter, start: Logical, dirs: Listings, places: map<Logical, Path>,
                     visited: set<Logical>, entries: seq<Entry>, e: Entry)
    requires Walked(adapter, start, dirs, places, {}, visited, entries) && e in entries
    ensures exists l, x :: Stands(adapter, start, l, x, e)
  {
    hide Resolves, NoTwins, NamesDistinct, NoDuplicates, SiblingsDistinct, Barren, HasName, AllDistinct;
    var l, n :| l in dirs && n in dirs[l] && e == EntryOf(l, n);
    assert ShowsName(dirs[l], n.name, n.isDir);
    assert Stands(adapter, start, l, places[l], e);
  }

  /** What lies in a directory shows the directory in its parent. */
  lemma ParentStands(adapter: EncryptedStorageAdapter, start: Logical, l: Logical, x: Path, e: Entry)
    requires Stands(adapter, start, l, x, e) && l != start
    ensures |x| == |l| > 0
    ensures Stands(adapter, start, l[..|l| - 1], x[..|l| - 1], Entry(l, true))
  {
    hide DecryptName, Live, Segments;
    var i, t := |l| - 1, adapter.Keys();
    ResolvesInit(adapter.cipher, t, adapter.root, l, x, i);
    var p, p' := adapter.root + x, adapter.root + x[..i];
    var f :| (f, e.isDir) in Children(t, p) && DecryptName(adapter.cipher, f) == Some(e.path[|l|]);
    var k :| k in t && p < k;
    assert p' < k && k[|p'|] == x[i] && |k| > |p'| + 1;
    DecryptableIsVisible(adapter.cipher, x[i]);
    assert (x[i], true) in Children(t, p');
    assert start <= l[..i];
  }

  lemma ResolvedMeans(c: Cipher, t: Tree, root: Path, l: Logical, x: Path)
    requires Resolves(c, t, root, l, x)
    ensures Means(c, t, root, Names(l), x)
  {
  }

  /** With distinct siblings all that stands was returned: its directory was visited, so listed. */
  lemma {:induction false} StandingIsReturned(adapter: EncryptedStorageAdapter, start: Logical, dirs: Listings,
                                              places: map<Logical, Path>, visited: set<Logical>,
                                              entries: seq<Entry>, l: Logical, x: Path, e: Entry)
    requires SiblingsDistinct(adapter.cipher, adapter.Keys(), adapter.root)
    requires Walked(adapter, start, dirs, places, {}, visited, entries) && Stands(adapter, start, l, x, e)
    ensures e in entries
    decreases |l|
  {
    hide Resolves, NoTwins, NamesDistinct, NoDuplicates, SiblingsDistinct, HasName, AllDistinct;
    if l != start {
      ParentStands(adapter, start, l, x, e);
      StandingIsReturned(adapter, start, dirs, places, visited, entries, l[..|l| - 1], x[..|l| - 1], Entry(l, true));
    }
    assert l in visited;
    ResolvedMeans(adapter.cipher, adapter.Keys(), adapter.root, l, x);
    assert l in dirs;
    ResolvesUnique(adapter.cipher, adapter.Keys(), adapter.root, l, x, places[l]);
    assert ShowsName(dirs[l], e.path[|l|], e.isDir);
    var n :| n in dirs[l] && n.name == e.path[|l|] && n.isDir == e.isDir;
    assert e.path == l + [n.name];
    assert e == EntryOf(l, n);
  }

  /** Distinct siblings leave no twins anywhere. */
  lemma NoTwinsAnywhere(c: Cipher, t: Tree, root: Path, x: Path)
    requires SiblingsDistinct(c, t, root)
    ensures NoTwins(c, t, root + x)
  {
    hide DecryptName;
    forall e, isDir | (e, isDir) in Children(t, root + x) ensures Live(t, root + x + [e]) {
      var k :| k in t && root + x < k && k[|root + x|] == e;
      assert root + x + [e] <= k;
    }
  }

  /**
   * The entries of a private folder's archive. No entry, so no archive name,
   * comes twice exactly when none of the directories listed has two files or two
   * directories of one name. With distinct siblings the entries are exactly
   * what is readable below the start.
   */
  method CollectDirectory(adapter: EncryptedStorageAdapter, start: Logical)
    returns (entries: Option<seq<Entry>>, ghost places: map<Logical, Path>)
    requires adapter.Valid()
    modifies adapter.inner.bucket`faults
    ensures adapter.Valid()
    ensures entries.Some? ==>
              && (forall e | e in entries.value :: exists l, x :: Stands(adapter, start, l, x, e))
              && (forall l | l in places :: Resolves(adapter.cipher, adapter.Keys(), adapter.root, l, places[l]))
              && (NoDuplicates(entries.value) <==>
                    forall l | l in places :: NoTwins(adapter.cipher, adapter.Keys(), adapter.root + places[l]))
    ensures entries.Some? && SiblingsDistinct(adapter.cipher, adapter.Keys(), adapter.root) ==>
              NoDuplicates(entries.value) && forall l, x, e | Stands(adapter, start, l, x, e) :: e in entries.value
    ensures old(adapter.inner.bucket.Healthy()) && entries.None? ==>
              exists key :: key in adapter.inner.bucket.objects
                            && Decode(adapter.cipher, adapter.inner.bucket.objects[key]).error.Some?
  {
    hide Segments, Resolves, NoTwins, NamesDistinct, NamesOf, NoDuplicates, Stands, Decode, Walked, SiblingsDistinct;
    ghost var deepest := DirectoryWalk.DepthOf(adapter.Keys());
    ghost var least := |adapter.root| + |start|;
    var visited;
    ghost var dirs;
    entries, visited, dirs, places :=
      WalkDirectory(adapter, start, {}, if deepest < least then least else deepest);
    if entries.Some? {
      DuplicatesAreTwins(adapter, start, dirs, places, visited, entries.value);
      forall e | e in entries.value ensures exists l, x :: Stands(adapter, start, l, x, e) {
        WalkedStands(adapter, start, dirs, places, visited, entries.value, e);
      }
      if SiblingsDistinct(adapter.cipher, adapter.Keys(), adapter.root) {
        forall l, x, e | Stands(adapter, start, l, x, e) ensures e in entries.value {
          StandingIsReturned(adapter, start, dirs, places, visited, entries.value, l, x, e);
        }
        forall l | l in places ensures NoTwins(adapter.cipher, adapter.Keys(), adapter.root + places[l]) {
          NoTwinsAnywhere(adapter.cipher, adapter.Keys(), adapter.root, places[l]);
        }
      }
    }
  }

  lemma DuplicatesAreTwins(adapter: EncryptedStorageAdapter, start: Logical, dirs: Listings,
                           places: map<Logical, Path>, visited: set<Logical>, entries: seq<Entry>)
    requires Walked(adapter, start, dirs, places, {}, visited, entries)
    ensures forall l | l in places :: Resolves(adapter.cipher, adapter.Keys(), adapter.root, l, places[l])
    ensures NoDuplicates(entries) <==>
            forall l | l in places :: NoTwins(adapter.cipher, adapter.Keys(), adapter.root + places[l])
  {
    hide Resolves, NoTwins, NamesDistinct, NamesOf, NoDuplicates, SiblingsDistinct, Barren;
  }
}
