/** Paths and names of a directory walk. */
module WalkPaths {
  import opened ObjectTree
  import opened StoragePaths

  /** What the walk returns for one entry: its storage path and its name in the archive. */
  datatype Entry = Entry(path: string, arcname: string, isDir: bool)

  function JoinPath(directory: string, name: string): string {
    if directory != "" then directory + [SLASH] + name else name
  }

  /** `_arcname_from`: the storage path without its root and the slashes after it. */
  function ArcnameFrom(storagePath: string, root: string, filename: string): string {
    var relative := LStripSlash(From(storagePath, |root|));
    if relative == "" then filename else relative
  }

  /** The entry of one node of a listed directory; a directory's archive name ends in a slash. */
  function EntryOf(root: string, directory: string, name: string, isDir: bool): Entry {
    var storagePath := JoinPath(directory, name);
    var arcname := ArcnameFrom(storagePath, root, name);
    Entry(storagePath, if isDir then RStripSlash(arcname) + [SLASH] else arcname, isDir)
  }

  function EntryAt(root: string, n: Path, name: string, isDir: bool): Entry {
    EntryOf(root, Join(n), name, isDir)
  }

  // ----- Paths that normalizing leaves alone -----

  predicate Stable(path: string) {
    NormalizePath(path) == path
  }

  /** Plain segments whose joined path is stable. */
  predicate Canon(n: Path) {
    (forall s | s in n :: Plain(s)) && (n != [] ==> Trim(Join(n)))
  }

  lemma PlainIsNamed(n: Path)
    requires forall s | s in n :: Plain(s)
    ensures Named(n)
  {
  }

  /** Normalizing leaves a path of plain segments alone exactly when no blank stands at its ends. */
  lemma StableMeansTrim(n: Path)
    requires forall s | s in n :: Plain(s)
    ensures Stable(Join(n)) <==> n == [] || Trim(Join(n))
  {
    hide Join, LStripSlash, RStripSlash, Strip;
    JoinNothing();
    if n != [] {
      JoinLength(n);
      assert n[0] in n;
      if !Trim(Join(n)) {
        StripShortens(Join(n));
      }
    }
  }

  /** Where the recursion into a child really goes. */
  function Next(n: Path, name: string): Path {
    if n == [] then (if Strip(name) == "" then [] else [Strip(name)])
    else if RStripBlank(name) == "" then n
    else n + [RStripBlank(name)]
  }

  lemma {:induction false} LStripKeeps(s: string)
    ensures forall c | c in LStripBlank(s) :: c in s
  {
    if s != "" && IsBlank(s[0]) { LStripKeeps(s[1..]); }
  }

  /** A listed name, as written through the adapter. */
  predicate ChildName(name: string) {
    Visible(name) && SLASH !in name && '\\' !in name
  }

  /** Blanks around the name of a top-level child hide no dot segment. */
  predicate DotFree(name: string) {
    Strip(name) != "." && Strip(name) != ".."
  }

  /**
   * The path the walk recurses into, normalized: the child's own exactly when
   * that path is stable.
   */
  lemma NextIsNormalized(n: Path, name: string)
    requires Canon(n) && ChildName(name) && (n == [] ==> DotFree(name))
    ensures NormalizePath(JoinPath(Join(n), name)) == Join(Next(n, name)) && Canon(Next(n, name))
    ensures Next(n, name) == n || |Next(n, name)| == |n| + 1
    ensures Stable(Join(n + [name])) <==> Next(n, name) == n + [name]
  {
    if n == [] {
      NextOfTop(name);
    } else {
      NextBelow(n, name);
    }
  }

  lemma NextOfTop(name: string)
    requires ChildName(name) && DotFree(name)
    ensures NormalizePath(name) == Join(Next([], name)) && Canon(Next([], name))
    ensures Stable(Join([] + [name])) <==> Next([], name) == [] + [name]
  {
    var s := Strip(name);
    LStripKeeps(name);
    assert forall c | c in s :: c in LStripBlank(name);
    assert Slashed(s) == s;
    if s != "" {
      assert s[0] in s && s[|s| - 1] in s;
      assert Join([s]) == s;
    }
    assert [] + [name] == [name] && Join([name]) == name;
  }

  lemma NextBelow(n: Path, name: string)
    requires n != [] && Canon(n) && ChildName(name)
    ensures NormalizePath(JoinPath(Join(n), name)) == Join(Next(n, name)) && Canon(Next(n, name))
    ensures Stable(Join(n + [name])) <==> Next(n, name) == n + [name]
  {
    hide Join, NormalizePath, RStripBlank;
    var p, r := Join(n), RStripBlank(name);
    JoinLength(n);
    assert n[0] in n && p != "" && p[0] != SLASH;
    NormalizeBelow(p, name);
    JoinAppend(n, [name]);
    JoinOne(name);
    if r != "" {
      JoinAppend(n, [r]);
      JoinOne(r);
      assert forall s | s in n + [r] :: s in n || s == r;
      assert r != name ==> |p + [SLASH] + r| < |p + [SLASH] + name|;
    }
  }

  /** Only the blanks at the end of the name go, and with them the slash when nothing is left of it. */
  lemma NormalizeBelow(p: string, name: string)
    requires p != "" && Trim(p) && p[0] != SLASH && p[|p| - 1] != SLASH && '\\' !in p && ChildName(name)
    ensures var r := RStripBlank(name);
            NormalizePath(p + [SLASH] + name) == if r == "" then p else p + [SLASH] + r
  {
    hide LStripBlank, RStripBlank, LStripSlash, RStripSlash;
    var r := RStripBlank(name);
    var path := p + [SLASH] + name;
    RStripAppend(p + [SLASH], name);
    assert LStripBlank(path) == path;
    if r == "" {
      assert RStripBlank(p + [SLASH]) == p + [SLASH];
      assert Slashed(p + [SLASH]) == p + [SLASH];
      DropLastSlash(p);
    } else {
      var stripped := p + [SLASH] + r;
      assert Strip(path) == stripped;
      assert stripped[|stripped| - 1] == r[|r| - 1] && r[|r| - 1] in r;
      assert Slashed(stripped) == stripped;
    }
  }

  lemma DropLastSlash(p: string)
    requires p != "" && p[|p| - 1] != SLASH
    ensures RStripSlash(p + [SLASH]) == p
  {
    assert (p + [SLASH])[..|p|] == p;
  }

  lemma JoinOne(s: string)
    ensures Join([s]) == s
  {
  }

  /** A child's storage path has the directory's segments and the name. */
  lemma EntrySegments(n: Path, name: string)
    requires Named(n) && name != "" && SLASH !in name
    ensures Split(JoinPath(Join(n), name)) == n + [name] && JoinPath(Join(n), name) == Join(n + [name])
  {
    hide Split, Join;
    JoinNothing();
    JoinOne(name);
    SplitJoin([name]);
    if n == [] {
      assert n + [name] == [name];
    } else {
      SplitJoined(n, name);
      JoinAppend(n, [name]);
    }
  }

  /** Two children never share a storage path. */
  lemma SameEntry(root: string, m: Path, name: string, isDir: bool, m': Path, name': string, isDir': bool)
    requires Named(m) && Named(m') && name != "" && name' != "" && SLASH !in name && SLASH !in name'
    requires EntryAt(root, m, name, isDir) == EntryAt(root, m', name', isDir')
    ensures m == m' && name == name' && isDir == isDir'
  {
    hide Split, Join, ArcnameFrom;
    EntrySegments(m, name);
    EntrySegments(m', name');
    assert (m + [name])[..|m|] == m && (m' + [name'])[..|m'|] == m';
  }

  lemma JoinsApart(m: Path, m': Path)
    requires Canon(m) && Canon(m') && Join(m) == Join(m')
    ensures m == m'
  {
    hide Split, Join;
    JoinNothing();
    if m != [] && m' != [] {
      NamedSplitJoin(m);
      NamedSplitJoin(m');
    } else if m != m' {
      JoinEnds(if m == [] then m' else m);
    }
  }

  lemma {:induction false} JoinEnds(x: Path)
    requires x != [] && Named(x)
    ensures Join(x) != "" && Join(x)[0] != SLASH && Join(x)[|Join(x)| - 1] != SLASH
  {
    assert x[0] in x && x[0][0] in x[0];
    if |x| > 1 {
      assert forall s | s in x[1..] :: s in x;
      JoinEnds(x[1..]);
    } else {
      assert x[0][|x[0]| - 1] in x[0];
    }
  }

  lemma NormalAgain(r: Path)
    requires Canon(r)
    ensures NormalizePath(Join(r)) == Join(r)
  {
    hide Join, NormalizePath;
    StableMeansTrim(r);
  }

  // ----- Archive names -----

  /** An entry's archive name is its path below the start, with a slash after a directory. */
  lemma ArcnameIsRelative(r: Path, m: Path, name: string, isDir: bool)
    requires Named(m) && r <= m && name != "" && SLASH !in name
    ensures EntryAt(Join(r), m, name, isDir) ==
            Entry(Join(m + [name]), Join(m[|r|..] + [name]) + (if isDir then [SLASH] else ""), isDir)
  {
    hide Join, LStripSlash, RStripSlash;
    var rest := m[|r|..] + [name];
    EntrySegments(m, name);
    assert forall s | s in rest :: s in m || s == name;
    JoinEnds(rest);
    JoinNothing();
    FromBelow(r, rest);
    assert r + rest == m + [name];
    var below := From(Join(m + [name]), |Join(r)|);
    assert LStripSlash(below) == Join(rest) by { StripSlashes(Join(rest)); }
    StripSlashes(Join(rest));
  }

  lemma FromBelow(r: Path, rest: Path)
    requires rest != []
    ensures From(Join(r + rest), |Join(r)|) == if r == [] then Join(rest) else [SLASH] + Join(rest)
  {
    hide Join;
    JoinNothing();
    if r == [] {
      assert r + rest == rest;
    } else {
      JoinAppend(r, rest);
    }
  }

  lemma StripSlashes(s: string)
    requires s != "" && s[0] != SLASH && s[|s| - 1] != SLASH
    ensures LStripSlash(s) == s && LStripSlash([SLASH] + s) == s && RStripSlash(s) == s
  {
    assert ([SLASH] + s)[1..] == s;
  }

  /** Equal archive names belong to equal entries. */
  lemma ArcnamesDistinct(r: Path, m: Path, name: string, isDir: bool, m': Path, name': string, isDir': bool)
    requires Named(m) && Named(m') && r <= m && r <= m'
    requires name != "" && name' != "" && SLASH !in name && SLASH !in name'
    requires EntryAt(Join(r), m, name, isDir).arcname == EntryAt(Join(r), m', name', isDir').arcname
    ensures m == m' && name == name' && isDir == isDir'
  {
    hide Join, Split, EntryAt;
    ArcnameIsRelative(r, m, name, isDir);
    ArcnameIsRelative(r, m', name', isDir');
    var rest, rest' := m[|r|..] + [name], m'[|r|..] + [name'];
    var arcname := EntryAt(Join(r), m, name, isDir).arcname;
    assert forall s | s in rest :: s in m || s == name;
    assert forall s | s in rest' :: s in m' || s == name';
    JoinEnds(rest);
    JoinEnds(rest');
    assert isDir <==> arcname[|arcname| - 1] == SLASH;
    assert isDir' <==> arcname[|arcname| - 1] == SLASH;
    assert Join(rest) == if isDir then arcname[..|arcname| - 1] else arcname;
    assert Join(rest') == if isDir then arcname[..|arcname| - 1] else arcname;
    NamedSplitJoin(rest);
    NamedSplitJoin(rest');
    assert m == r + rest[..|rest| - 1] && m' == r + rest'[..|rest'| - 1];
    assert rest[|rest| - 1] == name && rest'[|rest'| - 1] == name';
  }
}
