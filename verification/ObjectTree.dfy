/** The flat keys read as a tree: a key is its segments, and a trailing empty segment is a directory marker. */
module ObjectTree {
  import opened Common
  import opened StoragePaths
  import opened EncryptedStream
  import opened ObjectStoreSpec
  import opened ObjectStore

  type Path = seq<string>

  type Tree = set<Path>

  /** The keys of a store, cut at their slashes. */
  function Segments(o: Objects): Tree {
    set k | k in o :: Split(k)
  }

  /** A path some key passes through or ends at. */
  ghost predicate Live(t: Tree, x: Path) {
    x == [] || exists k :: k in t && x <= k
  }

  /** Non-empty and without slashes: what a path can be made of. */
  predicate Named(x: Path) {
    forall s | s in x :: s != "" && SLASH !in s
  }

  // ----- Keys and segments -----

  lemma {:induction false} SplitJoined(x: Path, rest: string)
    requires x != [] && Named(x)
    ensures Split(Join(x) + [SLASH] + rest) == x + Split(rest)
    ensures Join(x) != "" && Join(x)[|Join(x)| - 1] != SLASH
  {
    assert x[0] in x && x == [x[0]] + x[1..];
    assert "" + x[0] == x[0];
    if |x| == 1 {
      SplitFromPlain("", x[0], rest);
    } else {
      assert forall s | s in x[1..] :: s in x;
      SplitJoined(x[1..], rest);
      SplitFromPlain("", x[0], Join(x[1..]) + [SLASH] + rest);
      assert Join(x) + [SLASH] + rest == x[0] + [SLASH] + (Join(x[1..]) + [SLASH] + rest);
    }
  }

  lemma {:induction false} JoinAppend(x: Path, y: Path)
    requires x != [] && y != []
    ensures Join(x + y) == Join(x) + [SLASH] + Join(y)
  {
    if |x| == 1 {
      assert (x + y)[1..] == y;
    } else {
      JoinAppend(x[1..], y);
      assert (x + y)[1..] == x[1..] + y;
    }
  }

  lemma SplitInjective(k: string, k': string)
    requires Split(k) == Split(k')
    ensures k == k'
  {
    JoinSplit(k);
    JoinSplit(k');
  }

  /** A key lies below a directory's prefix exactly when its segments extend the directory's. */
  lemma PrefixIsAncestor(x: Path, k: string)
    requires x != [] && Named(x)
    ensures Prefix(Join(x)) <= k <==> x < Split(k)
    ensures x < Split(k) ==> Split(k[|Prefix(Join(x))|..]) == Split(k)[|x|..]
    ensures k == Join(x) <==> Split(k) == x
  {
    hide Split, Join;
    var p := Prefix(Join(x));
    SplitJoined(x, "");
    assert p == Join(x) + [SLASH];
    JoinSplit(k);
    NamedSplitJoin(x);
    if p <= k {
      var rest := k[|p|..];
      SplitJoined(x, rest);
      assert k == Join(x) + [SLASH] + rest;
      assert (x + Split(rest))[|x|..] == Split(rest);
    }
    if x < Split(k) {
      var more := Split(k)[|x|..];
      assert Split(k) == x + more;
      JoinAppend(x, more);
      assert k == p + Join(more);
    }
  }

  lemma NamedSplitJoin(x: Path)
    requires x != [] && Named(x)
    ensures Split(Join(x)) == x
  {
    SplitJoin(x);
  }

  // ----- Renaming -----

  /** The keys a rename of `a` moves: the object itself, or all below. */
  function Movers(t: Tree, a: Path): Tree {
    if a in t then {a} else set k | k in t && a < k
  }

  function Shifted(keys: Tree, a: Path, b: Path): Tree
    requires forall k | k in keys :: a <= k
  {
    set k | k in keys :: b + k[|a|..]
  }

  function Shift(t: Tree, a: Path, b: Path): Tree {
    t - Movers(t, a) + Shifted(Movers(t, a), a, b)
  }

  lemma DestSegments(a: Path, b: Path, k: string)
    requires a != [] && b != [] && Named(a) && Named(b) && a < Split(k)
    ensures Prefix(Join(a)) <= k
    ensures Split(Dest(Prefix(Join(a)), Prefix(Join(b)), k)) == b + Split(k)[|a|..]
  {
    hide Split, Join, Named;
    PrefixIsAncestor(a, k);
    SplitJoined(b, k[|Prefix(Join(a))|..]);
    SplitJoined(b, "");
  }

  lemma BelowSegments(o: Objects, a: Path, k: string)
    requires a != [] && Named(a) && k in o
    ensures k in Below(o, Prefix(Join(a))) <==> a < Split(k)
    ensures Split(k) in Segments(o)
  {
    PrefixIsAncestor(a, k);
  }

  lemma ApartPrefixes(a: Path, b: Path)
    requires a != [] && b != [] && Named(a) && Named(b) && !(a <= b) && !(b <= a)
    ensures Apart(Prefix(Join(a)), Prefix(Join(b)))
  {
    hide Split, Join;
    PrefixIsAncestor(a, Prefix(Join(b)));
    PrefixIsAncestor(b, Prefix(Join(a)));
    SplitJoined(a, "");
    SplitJoined(b, "");
    assert Prefix(Join(a)) == Join(a) + [SLASH] + "" && Prefix(Join(b)) == Join(b) + [SLASH] + "";
    SplitEmpty();
  }

  lemma SplitEmpty()
    ensures Split("") == [""]
  {
  }

  /** What a rename does to the store is the move of a subtree. */
  lemma RelocateIsShift(o: Objects, a: Path, b: Path)
    requires a != [] && b != [] && Named(a) && Named(b) && !(a <= b) && !(b <= a)
    ensures Relocate(o, Join(a), Join(b)).Some? <==> Movers(Segments(o), a) != {}
    ensures Relocate(o, Join(a), Join(b)).Some? ==>
              Segments(Relocate(o, Join(a), Join(b)).value) == Shift(Segments(o), a, b)
  {
    hide Split, Join;
    var from, to := Prefix(Join(a)), Prefix(Join(b));
    var t := Segments(o);
    ApartPrefixes(a, b);
    NamedSplitJoin(a);
    NamedSplitJoin(b);
    forall k ensures Split(k) == a <==> k == Join(a) {
      PrefixIsAncestor(a, k);
    }
    assert Join(a) in o <==> a in t;
    if Join(a) in o {
      SingleShift(o, a, b);
    } else {
      forall k | k in o ensures k in Below(o, from) <==> a < Split(k) {
        BelowSegments(o, a, k);
      }
      if Below(o, from) != {} {
        var k :| k in Below(o, from);
        assert Split(k) in Movers(t, a);
        DirectoryShift(o, a, b);
      }
    }
  }

  lemma SingleShift(o: Objects, a: Path, b: Path)
    requires Named(a) && Named(b) && a != [] && b != [] && a != b && Join(a) in o
    ensures Segments(o[Join(b) := o[Join(a)]] - {Join(a)}) == Shift(Segments(o), a, b)
  {
    hide Split, Join;
    var after := o[Join(b) := o[Join(a)]] - {Join(a)};
    NamedSplitJoin(a);
    NamedSplitJoin(b);
    assert a in Segments(o) && Shifted({a}, a, b) == {b} by {
      assert b + a[|a|..] == b;
      assert forall x | x in Shifted({a}, a, b) :: x == b;
      assert a in {a};
      assert b in Shifted({a}, a, b);
    }
    forall x ensures x in Segments(after) <==> x in Segments(o) - {a} + {b} {
      if x in Segments(after) {
        var k :| k in after && Split(k) == x;
        if k == Join(a) || x == a { SplitInjective(k, Join(a)); }
      }
      if x in Segments(o) && x != a {
        var k :| k in o && Split(k) == x;
        assert k in after;
      }
      if x == b {
        assert Join(b) in after by { if Join(b) == Join(a) { assert false; } }
      }
    }
  }

  lemma DirectoryShift(o: Objects, a: Path, b: Path)
    requires a != [] && b != [] && Named(a) && Named(b) && !(a <= b) && !(b <= a)
    requires Apart(Prefix(Join(a)), Prefix(Join(b))) && a !in Segments(o)
    ensures Segments(Moved(o, Prefix(Join(a)), Prefix(Join(b)))) == Shift(Segments(o), a, b)
  {
    hide Split, Join;
    var from, to := Prefix(Join(a)), Prefix(Join(b));
    var after, t := Moved(o, from, to), Segments(o);
    forall x ensures x in Segments(after) <==> x in Shift(t, a, b) {
      if x in Segments(after) {
        var k :| k in after && Split(k) == x;
        if k in Arrivals(o, from, to) {
          var k' :| k' in Below(o, from) && k == Dest(from, to, k');
          BelowSegments(o, a, k');
          DestSegments(a, b, k');
          assert Split(k') in Movers(t, a);
        } else {
          BelowSegments(o, a, k);
        }
      }
      if x in t && x !in Movers(t, a) {
        var k :| k in o && Split(k) == x;
        BelowSegments(o, a, k);
        assert k in after;
      }
      if x in Shifted(Movers(t, a), a, b) {
        var y :| y in Movers(t, a) && x == b + y[|a|..];
        var k :| k in o && Split(k) == y;
        BelowSegments(o, a, k);
        DestSegments(a, b, k);
        assert Dest(from, to, k) in Dests(Below(o, from), from, to);
        OriginOf(from, to, k);
        MovedLookup(o, from, to, Dest(from, to, k));
      }
    }
  }

  // ----- What is live after each operation -----

  /** The keys neither at a path nor below it. */
  function Outside(t: Tree, a: Path): Tree {
    set k | k in t && !(a <= k)
  }

  /** Something below x is not below a. */
  ghost predicate KeptBy(t: Tree, a: Path, x: Path) {
    exists k :: k in t && x <= k && !(a <= k)
  }

  lemma LivePrefix(t: Tree, x: Path, y: Path)
    requires Live(t, y) && x <= y
    ensures Live(t, x)
  {
    if y != [] {
      var k :| k in t && y <= k;
      assert x <= k;
    }
  }

  /** The directory marker of a path or of one above it. */
  predicate IsMarkerOn(k: Path, x: Path) {
    |k| > 0 && k[|k| - 1] == "" && k[..|k| - 1] <= x
  }

  /** Adding the key of a new child, or its markers, to the root or a live directory makes exactly that child live. */
  lemma LiveAfterAdding(t: Tree, root: Path, parent: Path, name: string, added: Tree, x: Path)
    requires root <= parent && (parent == root || Live(t, parent))
    requires exists k :: k in added && parent + [name] <= k
    requires forall k | k in added :: k == parent + [name] || IsMarkerOn(k, parent + [name])
    requires root < x && x[|x| - 1] != ""
    ensures Live(t + added, x) <==> Live(t, x) || x == parent + [name]
  {
    if Live(t + added, x) {
      var k :| k in t + added && x <= k;
      if k in added {
        if k != parent + [name] {
          assert x != k;
          assert x <= k[..|k| - 1];
        }
        assert x <= parent || x == parent + [name];
        if x <= parent { LivePrefix(t, x, parent); }
      }
    }
  }

  /**
   * After a rename of `a` to a place `b` where nothing was: nothing is live
   * under `a`, the moved subtree is live under `b` as it was under `a`, and
   * elsewhere a path stays live unless it was a directory above `a` with nothing
   * else below it, not even its own marker.
   */
  lemma LiveAfterShift(t: Tree, a: Path, b: Path, x: Path)
    requires a != [] && b != [] && !(a <= b) && !(b <= a)
    requires Movers(t, a) != {} && !Live(t, b)
    requires a in t ==> forall k | k in t && a <= k :: k == a
    ensures a <= x ==> !Live(Shift(t, a, b), x)
    ensures b <= x ==> (Live(Shift(t, a, b), x) <==> Live(t, a + x[|b|..]))
    ensures !(a <= x) && !(b <= x) ==>
              (Live(Shift(t, a, b), x) <==> x <= b || KeptBy(t, a, x))
  {
    var m := Movers(t, a);
    forall k | k in t ensures a <= k <==> k in m {
      if a <= k && |k| == |a| {
        assert k == a;
      }
    }
    if b <= x {
      ShiftedSubtree(t, a, b, x);
    } else if !(a <= x) {
      ShiftedElsewhere(t, a, b, x);
    }
  }

  lemma ShiftedSubtree(t: Tree, a: Path, b: Path, x: Path)
    requires a != [] && b != [] && !(a <= b) && !(b <= a) && b <= x
    requires Movers(t, a) != {} && !Live(t, b)
    requires forall k | k in t :: a <= k <==> k in Movers(t, a)
    ensures Live(Shift(t, a, b), x) <==> Live(t, a + x[|b|..])
  {
    if Live(Shift(t, a, b), x) {
      MovedFromLive(t, a, b, x);
    }
    var y := a + x[|b|..];
    if Live(t, y) {
      var k :| k in t && y <= k;
      var moved := b + k[|a|..];
      assert a <= k && moved in Shifted(Movers(t, a), a, b);
      assert k[|a|..][..|x| - |b|] == x[|b|..];
      assert x == b + x[|b|..] && x <= moved;
    }
  }

  lemma MovedFromLive(t: Tree, a: Path, b: Path, x: Path)
    requires a != [] && b != [] && b <= x && !Live(t, b)
    requires forall k | k in t :: a <= k <==> k in Movers(t, a)
    requires Live(Shift(t, a, b), x)
    ensures Live(t, a + x[|b|..])
  {
    var k :| k in Shift(t, a, b) && x <= k;
    assert b <= k;
    var k' :| k' in Movers(t, a) && k == b + k'[|a|..];
    assert k' == a + k'[|a|..] && k'[|a|..] == k[|b|..];
    assert x[|b|..] <= k[|b|..];
    assert a + x[|b|..] <= k';
  }

  lemma ShiftedElsewhere(t: Tree, a: Path, b: Path, x: Path)
    requires a != [] && b != [] && !(a <= x) && !(b <= x)
    requires Movers(t, a) != {}
    requires forall k | k in t :: a <= k <==> k in Movers(t, a)
    ensures Live(Shift(t, a, b), x) <==> x <= b || KeptBy(t, a, x)
  {
    var m := Movers(t, a);
    if x <= b {
      var k :| k in m;
      assert b + k[|a|..] in Shifted(m, a, b);
      assert x <= b + k[|a|..];
    } else {
      assert forall k | k in t && !(a <= k) :: k in Shift(t, a, b);
    }
  }

  // ----- Writes and markers -----

  /** A write adds its path; a marker adds the path with an empty last segment. */
  lemma PutIsAdd(o: Objects, x: Path, body: Bytes)
    requires x != [] && Named(x)
    ensures Segments(o[Join(x) := body]) == Segments(o) + {x}
    ensures Segments(o[Prefix(Join(x)) := body]) == Segments(o) + {x + [""]}
  {
    hide Split, Join;
    NamedSplitJoin(x);
    SplitJoined(x, "");
    SplitEmpty();
    assert Prefix(Join(x)) == Join(x) + [SLASH] + "";
    PutSegments(o, Join(x), body);
    PutSegments(o, Prefix(Join(x)), body);
  }

  lemma PutSegments(o: Objects, key: string, body: Bytes)
    ensures Segments(o[key := body]) == Segments(o) + {Split(key)}
  {
    hide Split;
    var after := o[key := body];
    assert key in after;
    forall x ensures x in Segments(after) <==> x in Segments(o) + {Split(key)} {
      if x in Segments(o) {
        var k :| k in o && Split(k) == x;
        assert k in after;
      }
    }
  }

  /** Markers for a path and for each directory above it, below the root. */
  function MkdirKeys(root: Path, x: Path): Tree {
    set i | 0 < i <= |x| :: root + x[..i] + [""]
  }

  /** No blank at either end of any segment. */
  predicate Tidy(x: Path) {
    forall s | s in x :: Plain(s) && Trim(s)
  }

  /** The object key of a path of plain segments with no blank at its ends is those segments under the root's. */
  lemma KeyOfPlainPath(root: Path, x: Path)
    requires Named(root) && (forall s | s in x :: Plain(s)) && (x != [] ==> Trim(Join(x)))
    ensures ObjectKey(Join(root), Join(x)) == Some(Join(root + x))
    ensures Named(root + x)
  {
    hide Join, Split, SafeLogicalKey;
    assert forall s | s in root + x :: s in root || s in x;
    JoinNothing();
    if x == [] {
      assert root + x == root;
      NothingIsSafe();
    } else {
      PlainJoinIsSafe(x);
      JoinLength(x);
      if root != [] {
        SplitJoined(root, "");
        JoinAppend(root, x);
      } else {
        assert root + x == x;
      }
    }
  }

  /** In particular of a path with tidy segments. */
  lemma KeyOfTidyPath(root: Path, x: Path)
    requires Named(root) && Tidy(x)
    ensures ObjectKey(Join(root), Join(x)) == Some(Join(root + x))
    ensures Named(root + x)
  {
    hide Join, Split, SafeLogicalKey, ObjectKey;
    assert forall s | s in x :: Plain(s);
    if x != [] { TidyJoin(x); }
    KeyOfPlainPath(root, x);
  }

  lemma NothingIsSafe()
    ensures SafeLogicalKey("") == Some("")
  {
  }

  /** The markers of a path with tidy segments stand at its own directories. */
  lemma MarkersOfTidyPath(root: Path, x: Path, i: nat)
    requires Named(root) && Tidy(x) && i < |x|
    ensures MarkerAt(Join(root), x, i) == Some(Prefix(Join(root + x[..i + 1]))) && Named(root + x[..i + 1])
  {
    hide Join, Split, SafeLogicalKey, ObjectKey;
    assert forall s | s in x[..i + 1] :: s in x;
    KeyOfTidyPath(root, x[..i + 1]);
  }

  lemma {:induction false} TidyJoin(x: Path)
    requires x != [] && Tidy(x)
    ensures x[0] != "" && Join(x) != "" && Join(x)[0] == x[0][0] && Trim(Join(x))
    ensures var last := x[|x| - 1]; last != "" && Join(x)[|Join(x)| - 1] == last[|last| - 1]
  {
    assert x[0] in x;
    if |x| > 1 {
      assert forall s | s in x[1..] :: s in x;
      TidyJoin(x[1..]);
    }
  }

  lemma MarkerSegments(root: Path, x: Path, i: nat)
    requires Named(root) && Tidy(x) && i < |x|
    ensures var marker := MarkerAt(Join(root), x, i);
            marker.Some? && Split(marker.value) == root + x[..i + 1] + [""]
  {
    hide Join, Split, MarkerAt;
    MarkersOfTidyPath(root, x, i);
    var path := root + x[..i + 1];
    assert forall s | s in path :: s in root || s in x;
    assert forall s | s in x :: Plain(s);
    SplitJoined(path, "");
    SplitEmpty();
    assert Prefix(Join(path)) == Join(path) + [SLASH] + "";
  }

  /** mkdir of a path with tidy segments adds its markers to the tree, and nothing else. */
  lemma MkdirIsAdd(o: Objects, root: Path, x: Path)
    requires Named(root) && Tidy(x)
    ensures Segments(o + EmptyObjects(MarkerKeys(Join(root), x, |x|))) == Segments(o) + MkdirKeys(root, x)
  {
    hide Join, Split, MarkerAt;
    var made := MarkerKeys(Join(root), x, |x|);
    forall i | 0 <= i < |x|
      ensures MarkerAt(Join(root), x, i).Some? && Split(MarkerAt(Join(root), x, i).value) == root + x[..i + 1] + [""]
    {
      MarkerSegments(root, x, i);
    }
    AddedSegments(o, made);
    forall y ensures y in Segments(EmptyObjects(made)) <==> y in MkdirKeys(root, x) {
      if y in Segments(EmptyObjects(made)) {
        var k :| k in made && Split(k) == y;
        var i :| 0 <= i < |x| && MarkerAt(Join(root), x, i).Some? && MarkerAt(Join(root), x, i).value == k;
        assert y == root + x[..i + 1] + [""];
      }
      if y in MkdirKeys(root, x) {
        var i :| 0 < i <= |x| && y == root + x[..i] + [""];
        assert MarkerAt(Join(root), x, i - 1).value in EmptyObjects(made);
      }
    }
  }

  lemma AddedSegments(o: Objects, made: set<string>)
    ensures Segments(o + EmptyObjects(made)) == Segments(o) + Segments(EmptyObjects(made))
  {
    hide Split;
    var after := o + EmptyObjects(made);
    forall y ensures y in Segments(after) <==> y in Segments(o) + Segments(EmptyObjects(made)) {
      if y in Segments(o) {
        var k :| k in o && Split(k) == y;
        assert k in after;
      }
      if y in Segments(EmptyObjects(made)) {
        var k :| k in EmptyObjects(made) && Split(k) == y;
        assert k in after;
      }
    }
  }

  // ----- Listing -----

  predicate Visible(name: string) {
    name != "" && !Hidden(name)
  }

  /** The children of a directory: names with what they are; a name can be both a directory and a file. */
  function Children(t: Tree, p: Path): set<(string, bool)> {
    set k | k in t && p < k && Visible(k[|p|]) :: (k[|p|], |k| > |p| + 1)
  }

  lemma KeyBelow(o: Objects, p: Path, k: string)
    requires Named(p) && k in o
    ensures k in Below(o, Prefix(Join(p))) <==> p < Split(k)
    ensures p < Split(k) ==> Split(k[|Prefix(Join(p))|..]) == Split(k)[|p|..]
  {
    if p == [] {
      assert k[0..] == k && Split(k)[0..] == Split(k);
    } else {
      PrefixIsAncestor(p, k);
    }
  }

  /** The adapter's listing shows the children of the directory in the tree. */
  lemma NodesAreChildren(o: Objects, p: Path, name: string, isDir: bool)
    requires Named(p)
    ensures (exists size :: Node(name, isDir, size) in Nodes(o, Prefix(Join(p)))) <==>
              (name, isDir) in Children(Segments(o), p)
  {
    hide Split, Join;
    var prefix := Prefix(Join(p));
    if size :| Node(name, isDir, size) in Nodes(o, prefix) {
      var k :| k in Below(o, prefix) && NodeAt(o, prefix, k) == Node(name, isDir, size);
      KeyBelow(o, p, k);
      assert Split(k) in Segments(o);
    }
    if (name, isDir) in Children(Segments(o), p) {
      var s :| s in Segments(o) && p < s && Visible(s[|p|]) && name == s[|p|] && isDir == (|s| > |p| + 1);
      var k :| k in o && Split(k) == s;
      KeyBelow(o, p, k);
      assert NodeAt(o, prefix, k) in Nodes(o, prefix);
      assert Node(name, isDir, NodeAt(o, prefix, k).size) in Nodes(o, prefix);
    }
  }

  /** The nodes of a listing are told apart by name and kind alone. */
  lemma NodesDiffer(o: Objects, prefix: string, a: Node, b: Node)
    requires a in Nodes(o, prefix) && b in Nodes(o, prefix) && a.name == b.name && a.isDir == b.isDir
    ensures a == b
  {
    hide Split;
    var k :| k in Below(o, prefix) && NodeAt(o, prefix, k) == a;
    var k' :| k' in Below(o, prefix) && NodeAt(o, prefix, k') == b;
    if !a.isDir {
      var parts, parts' := Split(k[|prefix|..]), Split(k'[|prefix|..]);
      assert parts == [a.name] && parts' == [a.name];
      SplitInjective(k[|prefix|..], k'[|prefix|..]);
      assert k == prefix + k[|prefix|..] && k' == prefix + k'[|prefix|..];
    }
  }
}
