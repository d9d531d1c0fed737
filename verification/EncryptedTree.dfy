/** Logical paths over encrypted names: what resolves, and what each operation changes. */
module EncryptedTree {
  import opened Common
  import opened EncryptedStream
  import opened EncryptedNames
  import opened StoragePaths
  import opened ObjectStore
  import opened ObjectStoreSpec
  import opened ObjectTree

  type Logical = seq<Name>

  /** An encrypted path reads as a logical one, segment by segment. */
  ghost predicate Reads(c: Cipher, x: Path, l: Logical) {
    && |x| == |l|
    && forall i | 0 <= i < |x| :: DecryptName(c, x[i]) == Some(l[i])
  }

  /** The encrypted path exists under the adapter's root and reads as the logical path; the root always does. */
  ghost predicate Resolves(c: Cipher, t: Tree, root: Path, l: Logical, x: Path) {
    Reads(c, x, l) && (x == [] || Live(t, root + x))
  }

  /** No directory under the root has two entries that decrypt to one name. */
  ghost predicate SiblingsDistinct(c: Cipher, t: Tree, root: Path) {
    forall p: Path, e, e' |
      && Live(t, root + p + [e]) && Live(t, root + p + [e'])
      && DecryptName(c, e).Some? && DecryptName(c, e) == DecryptName(c, e') :: e == e'
  }

  ghost predicate Fresh(c: Cipher, t: Tree, root: Path, l: Logical) {
    forall x :: !Resolves(c, t, root, l, x)
  }

  /** The names `list` shows for a directory. */
  function ListNames(t: Tree, p: Path): set<string> {
    set k | k in t && p < k && k[|p|] != "" && !Hidden(k[|p|]) :: k[|p|]
  }

  /** What decrypts is a name a listing shows. */
  lemma DecryptableIsVisible(c: Cipher, e: string)
    requires DecryptName(c, e).Some?
    ensures e != "" && !Hidden(e)
  {
    var s := PadTo4(e);
    assert s != "" && Value(s[0]).Some?;
    assert e == "" ==> s == "";
    assert Value('.').None?;
  }

  lemma ListedIsLive(t: Tree, p: Path, e: string)
    ensures e in ListNames(t, p) <==> Live(t, p + [e]) && e != "" && !Hidden(e)
  {
    if e in ListNames(t, p) {
      var k :| k in t && p < k && k[|p|] == e;
      assert p + [e] <= k;
    }
    if Live(t, p + [e]) {
      var k :| k in t && p + [e] <= k;
      assert k[|p|] == e && p < k;
    }
  }

  lemma ResolvesInit(c: Cipher, t: Tree, root: Path, l: Logical, x: Path, n: nat)
    requires Resolves(c, t, root, l, x) && n <= |x|
    ensures Resolves(c, t, root, l[..n], x[..n])
  {
    if n > 0 {
      LivePrefix(t, root + x[..n], root + x);
    }
  }

  /** With distinct siblings a logical path has at most one encrypted path. */
  lemma {:induction false} ResolvesUnique(c: Cipher, t: Tree, root: Path, l: Logical, x: Path, y: Path)
    requires SiblingsDistinct(c, t, root) && Resolves(c, t, root, l, x) && Resolves(c, t, root, l, y)
    ensures x == y
    decreases |l|
  {
    hide Live, DecryptName;
    if l != [] {
      var n := |l| - 1;
      ResolvesInit(c, t, root, l, x, n);
      ResolvesInit(c, t, root, l, y, n);
      ResolvesUnique(c, t, root, l[..n], x[..n], y[..n]);
      assert root + x == root + x[..n] + [x[n]] && root + y == root + x[..n] + [y[n]];
      assert x == x[..n] + [x[n]] && y == y[..n] + [y[n]];
    }
  }

  /** No directory that itself reads has two entries that decrypt to one name. */
  ghost predicate ReadableDistinct(c: Cipher, t: Tree, root: Path) {
    forall l, p, e, e' |
      && Reads(c, p, l) && Live(t, root + p + [e]) && Live(t, root + p + [e'])
      && DecryptName(c, e).Some? && DecryptName(c, e) == DecryptName(c, e') :: e == e'
  }

  /** Logical paths are unambiguous exactly when no readable directory has twins. */
  lemma UnambiguousExactly(c: Cipher, t: Tree, root: Path)
    ensures (forall l, x, y | Resolves(c, t, root, l, x) && Resolves(c, t, root, l, y) :: x == y) <==>
            ReadableDistinct(c, t, root)
  {
    hide DecryptName, Live;
    if ReadableDistinct(c, t, root) {
      forall l, x, y | Resolves(c, t, root, l, x) && Resolves(c, t, root, l, y) ensures x == y {
        ReadableUnique(c, t, root, l, x, y);
      }
    } else {
      var l, p, e, e' :|
        && Reads(c, p, l) && Live(t, root + p + [e]) && Live(t, root + p + [e'])
        && DecryptName(c, e).Some? && DecryptName(c, e) == DecryptName(c, e') && e != e';
      var m := l + [DecryptName(c, e).value];
      assert root + (p + [e]) == root + p + [e] && root + (p + [e']) == root + p + [e'];
      assert Resolves(c, t, root, m, p + [e]) && Resolves(c, t, root, m, p + [e']);
      assert (p + [e])[|p|] != (p + [e'])[|p|];
    }
  }

  lemma ReadableTwins(c: Cipher, t: Tree, root: Path, l: Logical, p: Path, e: string, e': string)
    requires ReadableDistinct(c, t, root) && Reads(c, p, l)
    requires Live(t, root + p + [e]) && Live(t, root + p + [e'])
    requires DecryptName(c, e).Some? && DecryptName(c, e) == DecryptName(c, e')
    ensures e == e'
  {
    hide Live, DecryptName, Reads;
  }

  lemma {:induction false} ReadableUnique(c: Cipher, t: Tree, root: Path, l: Logical, x: Path, y: Path)
    requires ReadableDistinct(c, t, root) && Resolves(c, t, root, l, x) && Resolves(c, t, root, l, y)
    ensures x == y
    decreases |l|
  {
    hide Live, DecryptName, ReadableDistinct;
    if l != [] {
      var n := |l| - 1;
      ResolvesInit(c, t, root, l, x, n);
      ResolvesInit(c, t, root, l, y, n);
      ReadableUnique(c, t, root, l[..n], x[..n], y[..n]);
      assert root + x == root + x[..n] + [x[n]] && root + y == root + x[..n] + [y[n]];
      assert x == x[..n] + [x[n]] && y == y[..n] + [y[n]];
      ReadableTwins(c, t, root, l[..n], x[..n], x[n], y[n]);
    }
  }

  /** What resolves a longer path goes through the listing of whatever resolves a shorter one. */
  lemma NoMatch(c: Cipher, t: Tree, root: Path, logical: Logical, x: Path, i: nat, parts: Path)
    requires SiblingsDistinct(c, t, root) && Resolves(c, t, root, logical, x)
    requires i < |logical| && Resolves(c, t, root, logical[..i], parts)
    ensures x[i] in ListNames(t, root + parts) && DecryptName(c, x[i]) == Some(logical[i])
  {
    ResolvesInit(c, t, root, logical, x, i);
    ResolvesUnique(c, t, root, logical[..i], x[..i], parts);
    LivePrefix(t, root + x[..i + 1], root + x);
    assert root + x[..i + 1] == root + parts + [x[i]];
    DecryptableIsVisible(c, x[i]);
    ListedIsLive(t, root + parts, x[i]);
  }

  // ----- Write and mkdir -----

  /** The keys a write or a mkdir of `path` may add. */
  ghost predicate AddsEntry(added: Tree, path: Path) {
    && (exists k :: k in added && path <= k)
    && forall k | k in added :: k == path || IsMarkerOn(k, path)
  }

  /** The keys `write` and `mkdir` put. */
  lemma WritesAndMkdirsAddEntries(root: Path, x: Path)
    requires x != []
    ensures AddsEntry({root + x}, root + x) && AddsEntry(MkdirKeys(root, x), root + x)
  {
    assert x[..|x|] == x && root + x[..|x|] + [""] in MkdirKeys(root, x);
    assert root + x <= root + x + [""] && root + x in {root + x};
    forall k | k in MkdirKeys(root, x) ensures IsMarkerOn(k, root + x) {
      var i :| 0 < i <= |x| && k == root + x[..i] + [""];
      assert k[..|k| - 1] == root + x[..i];
    }
  }

  /** A new entry resolves, and nothing else does that did not before. */
  lemma AddResolves(c: Cipher, t: Tree, root: Path, parentLogical: Logical, parent: Path, name: Name, e: string,
                    added: Tree, l: Logical, x: Path)
    requires Resolves(c, t, root, parentLogical, parent) && DecryptName(c, e) == Some(name)
    requires AddsEntry(added, root + parent + [e])
    ensures Resolves(c, t + added, root, l, x) <==>
            Resolves(c, t, root, l, x) || (l == parentLogical + [name] && x == parent + [e])
  {
    if Reads(c, x, l) && x != [] {
      DecryptableIsVisible(c, x[|x| - 1]);
      assert (root + x)[|root + x| - 1] == x[|x| - 1];
      LiveAfterAdding(t, root, root + parent, e, added, root + x);
      if root + x == root + parent + [e] {
        assert x == (root + x)[|root|..] == (root + parent + [e])[|root|..] == parent + [e];
        assert l[..|parent|] == parentLogical;
        assert l == parentLogical + [name];
      }
    }
    if l == parentLogical + [name] && x == parent + [e] {
      assert root + x == root + parent + [e];
    }
  }

  /**
   * It keeps siblings distinct exactly when no other sibling has its name:
   * writing over a logical path makes a twin.
   */
  lemma AddKeepsDistinct(c: Cipher, t: Tree, root: Path, parentLogical: Logical, parent: Path, name: Name, e: string,
                         added: Tree)
    requires SiblingsDistinct(c, t, root)
    requires Resolves(c, t, root, parentLogical, parent) && DecryptName(c, e) == Some(name)
    requires AddsEntry(added, root + parent + [e])
    ensures SiblingsDistinct(c, t + added, root) <==>
            forall e' | Live(t, root + parent + [e']) && DecryptName(c, e') == Some(name) :: e' == e
  {
    var t' := t + added;
    forall p: Path, f | DecryptName(c, f).Some?
      ensures Live(t', root + p + [f]) <==> Live(t, root + p + [f]) || (p == parent && f == e)
    {
      DecryptableIsVisible(c, f);
      LiveAfterAdding(t, root, root + parent, e, added, root + p + [f]);
      if root + p + [f] == root + parent + [e] {
        assert (root + p + [f])[|root|..|root| + |p|] == p
          && (root + parent + [e])[|root|..|root| + |parent|] == parent;
      }
    }
    if SiblingsDistinct(c, t', root) {
      forall e' | Live(t, root + parent + [e']) && DecryptName(c, e') == Some(name) ensures e' == e {
        assert Live(t', root + parent + [e']) && Live(t', root + parent + [e]);
      }
    }
  }

  /** A fresh logical path has no such sibling. */
  lemma FreshHasNoTwin(c: Cipher, t: Tree, root: Path, parentLogical: Logical, parent: Path, name: Name)
    requires Resolves(c, t, root, parentLogical, parent) && Fresh(c, t, root, parentLogical + [name])
    ensures forall e | DecryptName(c, e) == Some(name) :: !Live(t, root + parent + [e])
  {
    hide DecryptName, Live;
    forall e | DecryptName(c, e) == Some(name) ensures !Live(t, root + parent + [e]) {
      assert root + (parent + [e]) == root + parent + [e];
      assert Reads(c, parent + [e], parentLogical + [name]);
      assert Live(t, root + parent + [e]) ==> Resolves(c, t, root, parentLogical + [name], parent + [e]);
    }
  }

  // ----- Rename -----

  /**
   * A rename of the entry `a` at encrypted path `x` to the fresh logical path
   * `b` under the encrypted path `y`, whose last segment was just drawn.
   */
  ghost predicate Renames(c: Cipher, t: Tree, root: Path, a: Logical, x: Path, b: Logical, y: Path) {
    && a != [] && b != [] && !(a <= b) && !(b <= a)
    && Resolves(c, t, root, a, x)
    && Reads(c, y, b) && Resolves(c, t, root, b[..|b| - 1], y[..|y| - 1])
    && !Live(t, root + y)
    && (root + x in t ==> forall k | k in t && root + x <= k :: k == root + x)
  }

  function AfterRename(t: Tree, root: Path, x: Path, y: Path): Tree {
    Shift(t, root + x, root + y)
  }

  /** The store's rename of the resolved key to the drawn key is that move. */
  lemma StoreRenameIsTreeRename(c: Cipher, o: Objects, root: Path, a: Logical, x: Path, b: Logical, y: Path)
    requires Renames(c, Segments(o), root, a, x, b, y) && Named(root + x) && Named(root + y)
    ensures Relocate(o, Join(root + x), Join(root + y)).Some?
    ensures Segments(Relocate(o, Join(root + x), Join(root + y)).value) == AfterRename(Segments(o), root, x, y)
  {
    hide Join, DecryptName;
    RootedPrefix(root, x, y);
    RootedPrefix(root, y, x);
    ReadsApart(c, a, x, b, y);
    var k :| k in Segments(o) && root + x <= k;
    assert root + x < k || k == root + x;
    assert k in Movers(Segments(o), root + x);
    RelocateIsShift(o, root + x, root + y);
  }

  lemma RootedPrefix(root: Path, x: Path, y: Path)
    ensures root + x <= root + y <==> x <= y
    ensures x <= y ==> (root + y)[|root + x|..] == y[|x|..]
  {
    if root + x <= root + y {
      assert x == (root + x)[|root|..] && y == (root + y)[|root|..];
      assert (root + y)[..|root + x|] == root + x;
      assert y[..|x|] == (root + y)[|root|..|root + x|] == x;
    }
  }

  lemma ReadsPrefix(c: Cipher, x: Path, l: Logical, y: Path, m: Logical)
    requires Reads(c, x, l) && Reads(c, y, m) && x <= y
    ensures l <= m && Reads(c, y[|x|..], m[|l|..])
  {
    forall i | 0 <= i < |l| ensures l[i] == m[i] {
      assert x[i] == y[i];
    }
  }

  /** What is live after a rename, under the root. */
  lemma RenameLive(c: Cipher, t: Tree, root: Path, a: Logical, x: Path, b: Logical, y: Path, z: Path)
    requires Renames(c, t, root, a, x, b, y)
    ensures var t' := AfterRename(t, root, x, y);
            && (x <= z ==> !Live(t', root + z))
            && (y <= z ==> (Live(t', root + z) <==> Live(t, root + x + z[|y|..])))
            && (!(x <= z) && !(y <= z) ==>
                  (Live(t', root + z) <==> z <= y || KeptBy(t, root + x, root + z) || root + z == []))
  {
    hide Reads;
    RootedPrefix(root, x, z);
    RootedPrefix(root, y, z);
    RootedPrefix(root, z, y);
    RootedPrefix(root, x, y);
    RootedPrefix(root, y, x);
    ReadsApart(c, a, x, b, y);
    var k :| k in t && root + x <= k;
    assert root + x < k || k == root + x;
    assert k in Movers(t, root + x);
    LiveAfterShift(t, root + x, root + y, root + z);
  }

  lemma ReadsApart(c: Cipher, a: Logical, x: Path, b: Logical, y: Path)
    requires Reads(c, x, a) && Reads(c, y, b) && !(a <= b) && !(b <= a)
    ensures !(x <= y) && !(y <= x) && x != [] && y != []
  {
    if x <= y { ReadsPrefix(c, x, a, y, b); }
    if y <= x { ReadsPrefix(c, y, b, x, a); }
  }

  /**
   * Resolution after a rename to a fresh path. The old path and all below it are
   * gone; the new path has what was below the old one; every other path resolves
   * as before, except a directory above the old path that nothing else kept.
   */
  lemma RenameResolves(c: Cipher, t: Tree, root: Path, a: Logical, x: Path, b: Logical, y: Path, l: Logical, z: Path)
    requires Renames(c, t, root, a, x, b, y) && SiblingsDistinct(c, t, root) && Fresh(c, t, root, b)
    requires l != []
    ensures a <= l ==> !Resolves(c, AfterRename(t, root, x, y), root, l, z)
    ensures b <= l ==>
              (Resolves(c, AfterRename(t, root, x, y), root, l, z) <==>
               y <= z && Resolves(c, t, root, a + l[|b|..], x + z[|y|..]))
    ensures !(a <= l) && !(b <= l) ==>
              (Resolves(c, AfterRename(t, root, x, y), root, l, z) <==>
               Resolves(c, t, root, l, z) && (z <= x ==> z <= y || KeptBy(t, root + x, root + z)))
  {
    hide DecryptName, Live, KeptBy, AfterRename;
    if Reads(c, z, l) {
      if y <= z {
        MovedResolves(c, t, root, a, x, b, y, l, z);
      } else if x <= z {
        RenameLive(c, t, root, a, x, b, y, z);
        ReadsPrefix(c, x, a, z, l);
      } else {
        OutsideResolves(c, t, root, a, x, b, y, l, z);
      }
    } else if b <= l && y <= z && Resolves(c, t, root, a + l[|b|..], x + z[|y|..]) {
      MovedBackReads(c, a, x, b, y, l, z);
    }
  }

  lemma MovedResolves(c: Cipher, t: Tree, root: Path, a: Logical, x: Path, b: Logical, y: Path, l: Logical, z: Path)
    requires Renames(c, t, root, a, x, b, y) && Reads(c, z, l) && y <= z
    ensures b <= l && !(a <= l)
    ensures Resolves(c, AfterRename(t, root, x, y), root, l, z) <==> Resolves(c, t, root, a + l[|b|..], x + z[|y|..])
  {
    hide DecryptName, Live, KeptBy, AfterRename;
    RenameLive(c, t, root, a, x, b, y, z);
    MovedReads(c, a, x, b, y, l, z);
    assert root + (x + z[|y|..]) == root + x + z[|y|..];
  }

  lemma MovedReads(c: Cipher, a: Logical, x: Path, b: Logical, y: Path, l: Logical, z: Path)
    requires Reads(c, x, a) && Reads(c, y, b) && Reads(c, z, l) && y <= z && !(a <= b) && !(b <= a)
    ensures b <= l && !(a <= l) && Reads(c, x + z[|y|..], a + l[|b|..])
  {
    ReadsPrefix(c, y, b, z, l);
  }

  lemma MovedBackReads(c: Cipher, a: Logical, x: Path, b: Logical, y: Path, l: Logical, z: Path)
    requires Reads(c, x, a) && Reads(c, y, b) && b <= l && y <= z && Reads(c, x + z[|y|..], a + l[|b|..])
    ensures Reads(c, z, l)
  {
    assert |z| == |l|;
    forall i | 0 <= i < |z| ensures DecryptName(c, z[i]) == Some(l[i]) {
      if i < |y| {
        assert z[i] == y[i] && l[i] == b[i];
      } else {
        assert (x + z[|y|..])[|x| + i - |y|] == z[i] && (a + l[|b|..])[|a| + i - |b|] == l[i];
      }
    }
  }

  lemma OutsideResolves(c: Cipher, t: Tree, root: Path, a: Logical, x: Path, b: Logical, y: Path, l: Logical, z: Path)
    requires Renames(c, t, root, a, x, b, y) && SiblingsDistinct(c, t, root) && Fresh(c, t, root, b)
    requires Reads(c, z, l) && l != [] && !(x <= z) && !(y <= z)
    ensures a <= l || b <= l ==> !Resolves(c, AfterRename(t, root, x, y), root, l, z)
    ensures Resolves(c, AfterRename(t, root, x, y), root, l, z) <==>
            Resolves(c, t, root, l, z) && (z <= x ==> z <= y || KeptBy(t, root + x, root + z))
  {
    hide Live, KeptBy, AfterRename, DecryptName;
    OutsideLive(c, t, root, a, x, b, y, l, z);
    if (a <= l || b <= l) && Resolves(c, t, root, l, z) {
      NeitherResolves(c, t, root, a, x, b, y, l, z);
    }
  }

  lemma OutsideLive(c: Cipher, t: Tree, root: Path, a: Logical, x: Path, b: Logical, y: Path, l: Logical, z: Path)
    requires Renames(c, t, root, a, x, b, y)
    requires Reads(c, z, l) && l != [] && !(x <= z) && !(y <= z)
    ensures Live(AfterRename(t, root, x, y), root + z) <==>
            Live(t, root + z) && (z <= x ==> z <= y || KeptBy(t, root + x, root + z))
  {
    hide AfterRename, DecryptName;
    RenameLive(c, t, root, a, x, b, y, z);
    if z <= y {
      ParentsLive(c, t, root, a, x, b, y, z);
    }
    if Live(t, root + z) && !(z <= x) {
      BesideIsKept(t, root, x, z);
    }
  }

  lemma ParentsLive(c: Cipher, t: Tree, root: Path, a: Logical, x: Path, b: Logical, y: Path, z: Path)
    requires Renames(c, t, root, a, x, b, y) && z <= y && !(y <= z) && z != []
    ensures Live(t, root + z)
  {
    hide DecryptName, Live;
    assert z <= y[..|y| - 1];
    ResolvesInit(c, t, root, b[..|b| - 1], y[..|y| - 1], |z|);
    assert y[..|y| - 1][..|z|] == z;
  }

  lemma BesideIsKept(t: Tree, root: Path, x: Path, z: Path)
    requires Live(t, root + z) && !(z <= x) && !(x <= z)
    ensures KeptBy(t, root + x, root + z)
  {
    RootedPrefix(root, z, x);
    RootedPrefix(root, x, z);
    var k :| k in t && root + z <= k;
  }

  lemma NeitherResolves(c: Cipher, t: Tree, root: Path, a: Logical, x: Path, b: Logical, y: Path, l: Logical, z: Path)
    requires Renames(c, t, root, a, x, b, y) && SiblingsDistinct(c, t, root) && Fresh(c, t, root, b)
    requires Resolves(c, t, root, l, z) && (a <= l || b <= l)
    ensures a <= l && x <= z
  {
    hide DecryptName, Live;
    assert b <= l ==> l[..|b|] == b;
    if a <= l {
      ResolvesInit(c, t, root, l, z, |a|);
      ResolvesUnique(c, t, root, a, x, z[..|a|]);
    } else {
      ResolvesInit(c, t, root, l, z, |b|);
    }
  }

  // ----- A rename keeps siblings distinct exactly when its target was fresh -----

  /** Where an entry live after a rename was before. */
  lemma LiveBefore(c: Cipher, t: Tree, root: Path, a: Logical, x: Path, b: Logical, y: Path, p: Path, e: string)
    requires Renames(c, t, root, a, x, b, y) && Live(AfterRename(t, root, x, y), root + p + [e])
    ensures y <= p ==> Live(t, root + (x + p[|y|..]) + [e])
    ensures !(y <= p) && p + [e] != y ==> Live(t, root + p + [e])
  {
    hide Live, AfterRename, DecryptName;
    var z := p + [e];
    assert root + z == root + p + [e];
    RenameLive(c, t, root, a, x, b, y, z);
    if y <= p {
      assert root + x + z[|y|..] == root + (x + p[|y|..]) + [e];
    } else if z != y {
      assert !(y <= z);
      if z <= y {
        ParentsLive(c, t, root, a, x, b, y, z);
      } else {
        KeptIsLive(t, root + x, root + z);
      }
    }
  }

  lemma KeptIsLive(t: Tree, a: Path, z: Path)
    requires KeptBy(t, a, z)
    ensures Live(t, z)
  {
  }

  lemma RenameKeepsDistinct(c: Cipher, t: Tree, root: Path, a: Logical, x: Path, b: Logical, y: Path)
    requires Renames(c, t, root, a, x, b, y) && SiblingsDistinct(c, t, root)
    ensures SiblingsDistinct(c, AfterRename(t, root, x, y), root) <==> Fresh(c, t, root, b)
  {
    hide Live, AfterRename, DecryptName, KeptBy;
    var t' := AfterRename(t, root, x, y);
    if Fresh(c, t, root, b) {
      forall p: Path, e, e' |
        && Live(t', root + p + [e]) && Live(t', root + p + [e'])
        && DecryptName(c, e).Some? && DecryptName(c, e) == DecryptName(c, e')
        ensures e == e'
      {
        DistinctAfter(c, t, root, a, x, b, y, p, e, e');
      }
    } else {
      var w :| Resolves(c, t, root, b, w);
      TwinAfter(c, t, root, a, x, b, y, w);
    }
  }

  lemma DistinctAfter(c: Cipher, t: Tree, root: Path, a: Logical, x: Path, b: Logical, y: Path, p: Path, e: string,
                      e': string)
    requires Renames(c, t, root, a, x, b, y) && SiblingsDistinct(c, t, root) && Fresh(c, t, root, b)
    requires Live(AfterRename(t, root, x, y), root + p + [e]) && Live(AfterRename(t, root, x, y), root + p + [e'])
    requires DecryptName(c, e).Some? && DecryptName(c, e) == DecryptName(c, e')
    ensures e == e'
  {
    hide Live, AfterRename, DecryptName;
    LiveBefore(c, t, root, a, x, b, y, p, e);
    LiveBefore(c, t, root, a, x, b, y, p, e');
    if p + [e] == y && e' != e {
      NotTheTarget(c, t, root, b, y, p, e, e');
    } else if p + [e'] == y && e' != e {
      NotTheTarget(c, t, root, b, y, p, e', e);
    }
  }

  lemma NotTheTarget(c: Cipher, t: Tree, root: Path, b: Logical, y: Path, p: Path, e: string, e': string)
    requires Reads(c, y, b) && p + [e] == y && Fresh(c, t, root, b) && DecryptName(c, e') == DecryptName(c, e)
    ensures !Live(t, root + p + [e'])
  {
    hide Live, DecryptName;
    assert root + (p + [e']) == root + p + [e'];
    assert forall i | 0 <= i < |p| :: (p + [e'])[i] == y[i];
    assert Reads(c, p + [e'], b);
    assert Live(t, root + p + [e']) ==> Resolves(c, t, root, b, p + [e']);
  }

  lemma TwinAfter(c: Cipher, t: Tree, root: Path, a: Logical, x: Path, b: Logical, y: Path, w: Path)
    requires Renames(c, t, root, a, x, b, y) && SiblingsDistinct(c, t, root) && Resolves(c, t, root, b, w)
    ensures !SiblingsDistinct(c, AfterRename(t, root, x, y), root)
  {
    hide Live, AfterRename, DecryptName, KeptBy;
    var n := |b| - 1;
    BothLive(c, t, root, a, x, b, y, w);
    assert w == w[..n] + [w[n]] && y == y[..n] + [y[n]];
    assert root + w == root + y[..n] + [w[n]] && root + y == root + y[..n] + [y[n]];
  }

  lemma BothLive(c: Cipher, t: Tree, root: Path, a: Logical, x: Path, b: Logical, y: Path, w: Path)
    requires Renames(c, t, root, a, x, b, y) && SiblingsDistinct(c, t, root) && Resolves(c, t, root, b, w)
    ensures Live(AfterRename(t, root, x, y), root + w) && Live(AfterRename(t, root, x, y), root + y)
    ensures w[..|b| - 1] == y[..|b| - 1] && w != y
  {
    hide Live, AfterRename, DecryptName, KeptBy;
    var n := |b| - 1;
    ResolvesInit(c, t, root, b, w, n);
    ResolvesUnique(c, t, root, b[..n], w[..n], y[..n]);
    ReadsApart(c, a, x, b, w);
    ReadsApart(c, a, x, b, y);
    BesideIsKept(t, root, x, w);
    RenameLive(c, t, root, a, x, b, y, w);
    RenameLive(c, t, root, a, x, b, y, y);
    assert root + x + y[|y|..] == root + x;
    assert y <= w ==> y == w;
  }
}
