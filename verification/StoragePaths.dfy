/** Logical paths, and the object keys they stand for. */
module StoragePaths {
  import opened Common

  const SLASH := '/'

  /** What the archive job appends to a path. */
  const ARCHIVE_EXTENSION := ".zst"

  /** What Python's `str.strip` removes. */
  predicate IsBlank(c: char) {
    || '\t' <= c <= '\r' || '\U{001C}' <= c <= ' ' || c == '\U{0085}' || c == '\U{00A0}' || c == '\U{1680}'
    || '\U{2000}' <= c <= '\U{200A}' || c == '\U{2028}' || c == '\U{2029}' || c == '\U{202F}' || c == '\U{205F}'
    || c == '\U{3000}'
  }

  function LStripBlank(s: string): (r: string)
    ensures |r| <= |s|
    ensures r != "" ==> !IsBlank(r[0])
    ensures s != "" && !IsBlank(s[0]) ==> r == s
  {
    if s != "" && IsBlank(s[0]) then LStripBlank(s[1..]) else s
  }

  function RStripBlank(s: string): (r: string)
    ensures r <= s
    ensures r != "" ==> !IsBlank(r[|r| - 1])
    ensures s != "" && !IsBlank(s[|s| - 1]) ==> r == s
  {
    if s != "" && IsBlank(s[|s| - 1]) then RStripBlank(s[..|s| - 1]) else s
  }

  function Strip(s: string): (r: string)
    ensures |r| <= |s|
    ensures Trim(r)
    ensures Trim(s) ==> r == s
  {
    RStripBlank(LStripBlank(s))
  }

  /** No blank at either end. */
  predicate Trim(s: string) {
    s == "" || (!IsBlank(s[0]) && !IsBlank(s[|s| - 1]))
  }

  lemma {:induction false} RStripAppend(a: string, b: string)
    ensures RStripBlank(a + b) == if RStripBlank(b) != "" then a + RStripBlank(b) else RStripBlank(a)
    decreases |b|
  {
    if b == "" {
      assert a + b == a;
    } else if IsBlank(b[|b| - 1]) {
      assert (a + b)[..|a + b| - 1] == a + b[..|b| - 1];
      RStripAppend(a, b[..|b| - 1]);
    }
  }

  function LStripSlash(s: string): (r: string)
    ensures |r| <= |s|
    ensures r != "" ==> r[0] != SLASH
    ensures s != "" && s[0] != SLASH ==> r == s
  {
    if s != "" && s[0] == SLASH then LStripSlash(s[1..]) else s
  }

  /** Backslashes become slashes. */
  function Slashed(s: string): (r: string)
    ensures |r| == |s|
    ensures '\\' !in r
    ensures '\\' !in s ==> r == s
  {
    seq(|s|, i requires 0 <= i < |s| => if s[i] == '\\' then SLASH else s[i])
  }

  function RStripSlash(s: string): (r: string)
    ensures r <= s
    ensures r != "" ==> r[|r| - 1] != SLASH
    ensures s != "" && s[|s| - 1] != SLASH ==> r == s
  {
    if s != "" && s[|s| - 1] == SLASH then RStripSlash(s[..|s| - 1]) else s
  }

  /** `_normalize_path` of the services: blanks off both ends, then slashes. */
  function NormalizePath(path: string): string {
    RStripSlash(LStripSlash(Slashed(Strip(path))))
  }

  // ----- Segments -----

  /** The text from position n on; Python's slice of a shorter text is empty. */
  function From(s: string, n: nat): string {
    if n <= |s| then s[n..] else ""
  }

  function Split(s: string): (parts: seq<string>)
    ensures parts != []
    ensures forall p | p in parts :: SLASH !in p
    ensures forall p, c | p in parts && c in p :: c in s
  {
    SplitFrom("", s)
  }

  /** Splits `segment + s`, where `segment` is known to hold no slash. */
  function SplitFrom(segment: string, s: string): (parts: seq<string>)
    requires SLASH !in segment
    ensures parts != []
    ensures forall p | p in parts :: SLASH !in p
    ensures forall p, c | p in parts && c in p :: c in segment || c in s
    decreases |s|
  {
    if s == "" then [segment]
    else if s[0] == SLASH then [segment] + SplitFrom("", s[1..])
    else SplitFrom(segment + [s[0]], s[1..])
  }

  function Join(parts: seq<string>): string {
    if parts == [] then ""
    else if |parts| == 1 then parts[0]
    else parts[0] + [SLASH] + Join(parts[1..])
  }

  lemma {:induction false} SplitFromPlain(segment: string, s: string, rest: string)
    requires SLASH !in segment && SLASH !in s
    ensures SplitFrom(segment, s + [SLASH] + rest) == [segment + s] + Split(rest)
    ensures SplitFrom(segment, s) == [segment + s]
    decreases |s|
  {
    if s == "" {
      assert s + [SLASH] + rest == [SLASH] + rest && segment + s == segment;
    } else {
      SplitFromPlain(segment + [s[0]], s[1..], rest);
      assert (s + [SLASH] + rest)[1..] == s[1..] + [SLASH] + rest;
      assert (segment + [s[0]]) + s[1..] == segment + s;
    }
  }

  /** Splitting undoes joining whenever no segment holds a slash. */
  lemma {:induction false} SplitJoin(parts: seq<string>)
    requires parts != [] && forall p | p in parts :: SLASH !in p
    ensures Split(Join(parts)) == parts
  {
    if |parts| == 1 {
      SplitFromPlain("", parts[0], "");
      assert "" + parts[0] == parts[0];
    } else {
      SplitJoin(parts[1..]);
      SplitFromPlain("", parts[0], Join(parts[1..]));
      assert "" + parts[0] == parts[0];
      assert parts == [parts[0]] + parts[1..];
    }
  }

  // ----- Safe keys -----

  /** A segment that may stand in a key. */
  predicate Plain(part: string) {
    part != "" && part != "." && part != ".." && SLASH !in part && '\\' !in part
  }

  /** Drops empty and dot segments; None when a parent segment is among them. */
  function SafeParts(parts: seq<string>): Option<seq<string>> {
    if parts == [] then Some([])
    else if parts[0] == ".." then None
    else if parts[0] == "" || parts[0] == "." then SafeParts(parts[1..])
    else
      var rest := SafeParts(parts[1..]);
      if rest.None? then None else Some([parts[0]] + rest.value)
  }

  /** The normalized logical key; None stands for PathTraversalError. */
  function SafeLogicalKey(path: string): Option<string> {
    var normalized := LStripSlash(Slashed(Strip(path)));
    if normalized == "" then Some("")
    else
      var parts := SafeParts(Split(normalized));
      if parts.None? then None else Some(Join(parts.value))
  }

  /** The loop of `_safe_logical_key`. */
  method NormalizeKey(path: string) returns (key: Option<string>)
    ensures key == SafeLogicalKey(path)
  {
    var normalized := LStripSlash(Slashed(Strip(path)));
    if normalized == "" { return Some(""); }
    var parts, segments := [], Split(normalized);
    for i := 0 to |segments|
      invariant SafeParts(segments).None? <==> SafeParts(segments[i..]).None?
      invariant SafeParts(segments).Some? ==> SafeParts(segments).value == parts + SafeParts(segments[i..]).value
    {
      var part := segments[i];
      assert segments[i..][0] == part && segments[i..][1..] == segments[i + 1..];
      if part == "" || part == "." { continue; }
      if part == ".." { return None; }
      parts := parts + [part];
    }
    assert segments[|segments|..] == [] && parts + [] == parts;
    return Some(Join(parts));
  }

  lemma {:induction false} SafePartsArePlain(parts: seq<string>)
    requires forall p | p in parts :: SLASH !in p && '\\' !in p
    ensures SafeParts(parts).None? <==> ".." in parts
    ensures SafeParts(parts).Some? ==> forall p | p in SafeParts(parts).value :: Plain(p)
    ensures (forall p | p in parts :: Plain(p)) ==> SafeParts(parts) == Some(parts)
  {
    if parts != [] {
      SafePartsArePlain(parts[1..]);
      assert parts[0] in parts && parts == [parts[0]] + parts[1..];
    }
  }

  /** Joined plain segments, none at all included. */
  ghost predicate Canonical(key: string) {
    key == "" || forall p | p in Split(key) :: Plain(p)
  }

  lemma {:induction false} JoinLength(parts: seq<string>)
    requires parts != [] && forall p | p in parts :: Plain(p)
    ensures parts[0] != "" && Join(parts) != "" && Join(parts)[0] == parts[0][0]
    ensures Join(parts)[|Join(parts)| - 1] != SLASH && '\\' !in Join(parts)
    ensures var last := parts[|parts| - 1]; last != "" && Join(parts)[|Join(parts)| - 1] == last[|last| - 1]
  {
    assert parts[0] in parts;
    if |parts| > 1 {
      JoinLength(parts[1..]);
    }
  }

  /**
   * Whatever the input, the key is refused exactly for a parent segment, and
   * otherwise is plain segments only: no escape, no empty segment, no slash at
   * either end.
   */
  lemma SafeKeyIsCanonical(path: string)
    ensures SafeLogicalKey(path).None? <==> ".." in Split(LStripSlash(Slashed(Strip(path))))
    ensures SafeLogicalKey(path).Some? ==>
              var key := SafeLogicalKey(path).value;
              Canonical(key) && (key != "" ==> key[0] != SLASH && key[|key| - 1] != SLASH && '\\' !in key)
  {
    var normalized := LStripSlash(Slashed(Strip(path)));
    NoNewChars(Slashed(Strip(path)));
    if normalized != "" {
      SafePartsArePlain(Split(normalized));
      var parts := SafeParts(Split(normalized));
      if parts.Some? && parts.value != [] {
        JoinLength(parts.value);
        SplitJoin(parts.value);
        assert parts.value[0] in parts.value;
      }
    }
  }

  lemma {:induction false} NoNewChars(s: string)
    ensures forall c | c in LStripSlash(s) :: c in s
  {
    if s != "" && s[0] == SLASH {
      NoNewChars(s[1..]);
    }
  }

  lemma {:induction false} JoinSplitFrom(segment: string, s: string)
    requires SLASH !in segment
    ensures Join(SplitFrom(segment, s)) == segment + s
    decreases |s|
  {
    if s == "" {
    } else if s[0] == SLASH {
      JoinSplitFrom("", s[1..]);
      assert segment + s == segment + [SLASH] + s[1..];
      assert "" + s[1..] == s[1..];
    } else {
      JoinSplitFrom(segment + [s[0]], s[1..]);
    }
  }

  lemma JoinSplit(s: string)
    ensures Join(Split(s)) == s
  {
    JoinSplitFrom("", s);
  }

  lemma SplitFirst(s: string)
    ensures |Split(s)| == 1 ==> Split(s) == [s] && SLASH !in s
    ensures |Split(s)| > 1 ==> Split(s)[0] + [SLASH] <= s
  {
    hide Split;
    JoinSplit(s);
    var parts := Split(s);
    if |parts| == 1 {
      assert parts == [s] && parts[0] in parts;
    } else {
      assert s == parts[0] + [SLASH] + Join(parts[1..]);
    }
  }

  lemma SplitAtName(name: string, rest: string)
    requires SLASH !in name
    ensures Split(name) == [name] && Split(name + [SLASH] + rest) == [name] + Split(rest)
  {
    SplitFromPlain("", name, rest);
    assert "" + name == name;
  }

  predicate Around(s: string, before: string, segment: string, after: string) {
    && s == before + segment + after
    && (before == "" || before[|before| - 1] == SLASH) && (after == "" || after[0] == SLASH)
  }

  /** The segment stands in the text between slashes or ends. */
  ghost predicate StandsIn(s: string, segment: string) {
    exists before, after :: Around(s, before, segment, after)
  }

  /** Splitting finds exactly the segments that stand in the text. */
  lemma SegmentsOf(s: string, segment: string)
    requires SLASH !in segment
    ensures segment in Split(s) <==> StandsIn(s, segment)
  {
    hide Split, Join;
    if segment in Split(s) {
      var i :| 0 <= i < |Split(s)| && Split(s)[i] == segment;
      JoinSplit(s);
      var before, after := AroundSegment(Split(s), i);
    }
    if StandsIn(s, segment) {
      var before, after :| Around(s, before, segment, after);
      StandingIsSegment(before, segment, after);
    }
  }

  lemma {:induction false} AroundSegment(parts: seq<string>, i: nat) returns (before: string, after: string)
    requires i < |parts|
    ensures Around(Join(parts), before, parts[i], after)
    decreases |parts|
  {
    before, after := "", "";
    if i == 0 {
      if |parts| > 1 { after := [SLASH] + Join(parts[1..]); }
    } else {
      before, after := AroundSegment(parts[1..], i - 1);
      var longer := parts[0] + [SLASH] + before;
      assert longer[|longer| - 1] == SLASH;
      assert Join(parts) == longer + parts[i] + after;
      before := longer;
    }
  }

  lemma {:induction false} StandingIsSegment(before: string, segment: string, after: string)
    requires SLASH !in segment
    requires (before == "" || before[|before| - 1] == SLASH) && (after == "" || after[0] == SLASH)
    ensures segment in Split(before + segment + after)
    decreases |before|
  {
    hide Split;
    if before == "" {
      assert before + segment + after == if after == "" then segment else segment + [SLASH] + after[1..];
      SplitAtName(segment, if after == "" then "" else after[1..]);
      assert ([segment] + Split(if after == "" then "" else after[1..]))[0] == segment;
    } else {
      var first := Split(before)[0];
      SplitFirst(before);
      assert first in Split(before) && before[|before| - 1] in before;
      var rest := before[|first| + 1..];
      assert before == first + [SLASH] + rest;
      StandingIsSegment(rest, segment, after);
      SplitAtName(first, rest + segment + after);
      assert before + segment + after == first + [SLASH] + (rest + segment + after);
    }
  }

  lemma {:induction false} SafePartsShrink(parts: seq<string>)
    requires SafeParts(parts).Some?
    ensures |Join(SafeParts(parts).value)| <= |Join(parts)|
    ensures SafeParts(parts).value != [] ==> parts != []
  {
    if parts != [] {
      SafePartsShrink(parts[1..]);
    }
  }

  /** The segments of the input that will stand in the key. */
  function KeptSegments(path: string): seq<string> {
    Kept(Split(LStripSlash(Slashed(Strip(path)))))
  }

  function Kept(parts: seq<string>): seq<string> {
    if parts == [] then []
    else if parts[0] == "" || parts[0] == "." then Kept(parts[1..])
    else [parts[0]] + Kept(parts[1..])
  }

  /** The first of them starts and the last of them ends without a blank. */
  predicate BlankFreeEnds(parts: seq<string>) {
    parts != [] && parts[0] != "" && parts[|parts| - 1] != "" ==>
      !IsBlank(parts[0][0]) && !IsBlank(parts[|parts| - 1][|parts[|parts| - 1]| - 1])
  }

  lemma {:induction false} SafePartsAreKept(parts: seq<string>)
    ensures SafeParts(parts).Some? ==> SafeParts(parts).value == Kept(parts)
  {
    if parts != [] {
      SafePartsAreKept(parts[1..]);
    }
  }

  /**
   * Normalizing twice changes nothing exactly when, of the segments that are
   * neither empty nor a dot, the first starts and the last ends without a blank;
   * the source strips before it drops slashes, so "/ x" is not normal after one
   * pass.
   */
  lemma NormalizingTwice(path: string)
    requires SafeLogicalKey(path).Some?
    ensures SafeLogicalKey(SafeLogicalKey(path).value) == SafeLogicalKey(path) <==> BlankFreeEnds(KeptSegments(path))
  {
    hide SafeParts, Split, Join, LStripSlash, Slashed, Strip, Kept;
    var key := SafeLogicalKey(path).value;
    var parts := KeptSegments(path);
    NormalOnlyWhenTrim(path);
    KeyOfKept(path);
    JoinNothing();
    if parts != [] {
      JoinLength(parts);
      assert parts[0] in parts;
    }
  }

  lemma JoinNothing()
    ensures Join([]) == ""
  {
  }

  lemma KeyOfKept(path: string)
    requires SafeLogicalKey(path).Some?
    ensures SafeLogicalKey(path).value == Join(KeptSegments(path)) && forall p | p in KeptSegments(path) :: Plain(p)
  {
    var normalized := LStripSlash(Slashed(Strip(path)));
    NoNewChars(Slashed(Strip(path)));
    SafePartsAreKept(Split(normalized));
    SafePartsArePlain(Split(normalized));
    if normalized == "" {
      assert Kept(Split("")) == [] by { assert Split("") == [""]; }
    }
  }

  lemma NormalOnlyWhenTrim(path: string)
    requires SafeLogicalKey(path).Some?
    ensures var key := SafeLogicalKey(path).value;
            SafeLogicalKey(key) == Some(key) <==> Trim(key)
  {
    hide SafeParts, Split, Join, LStripSlash, Slashed, Strip;
    var key := SafeLogicalKey(path).value;
    SafeKeyIsCanonical(path);
    if key != "" {
      if Trim(key) {
        SafePartsArePlain(Split(key));
        JoinSplit(key);
      } else if SafeLogicalKey(key).Some? {
        KeyNoLonger(key);
        StripShortens(key);
      }
    }
  }

  lemma KeyNoLonger(path: string)
    requires SafeLogicalKey(path).Some?
    ensures |SafeLogicalKey(path).value| <= |Strip(path)|
  {
    var normalized := LStripSlash(Slashed(Strip(path)));
    if normalized != "" {
      SafePartsShrink(Split(normalized));
      JoinSplitFrom("", normalized);
    }
  }

  lemma StripShortens(s: string)
    requires !Trim(s)
    ensures |Strip(s)| < |s|
  {
  }

  /** Plain segments joined are already normal, unless a blank stands at an end. */
  lemma PlainJoinIsSafe(parts: seq<string>)
    requires parts != [] && (forall p | p in parts :: Plain(p)) && Trim(Join(parts))
    ensures SafeLogicalKey(Join(parts)) == Some(Join(parts))
  {
    hide Join, Split, SafeParts, Strip, Slashed, LStripSlash;
    JoinLength(parts);
    assert parts[0] in parts && parts[0][0] != SLASH;
    SplitJoin(parts);
    SafePartsArePlain(parts);
  }

  // ----- Object keys -----

  /** The adapter strips its root prefix of blanks and slashes once, when it is made. */
  ghost predicate RootPrefix(root: string) {
    root != "" ==> root[0] != SLASH && root[|root| - 1] != SLASH
  }

  function ObjectKey(root: string, path: string): Option<string> {
    var logical := SafeLogicalKey(path);
    if logical.None? then None
    else if logical.value == "" then Some(root)
    else if root == "" then logical
    else Some(root + [SLASH] + logical.value)
  }

  /** The prefix of everything below a key: `_list_prefix`, and the key with `as_dir`. */
  function Prefix(key: string): string {
    if key == "" || key[|key| - 1] == SLASH then key else key + [SLASH]
  }

  /** Keys stay under the root, never end in a slash, and two paths share a key exactly when they normalize alike. */
  lemma KeysStayUnderRoot(root: string, path: string, path': string)
    requires RootPrefix(root) && ObjectKey(root, path).Some? && ObjectKey(root, path').Some?
    ensures var key := ObjectKey(root, path).value;
            && (key == root || Prefix(root) <= key)
            && (key != "" ==> key[|key| - 1] != SLASH)
            && (ObjectKey(root, path) == ObjectKey(root, path') <==> SafeLogicalKey(path) == SafeLogicalKey(path'))
  {
    SafeKeyIsCanonical(path);
    SafeKeyIsCanonical(path');
    var l, l' := SafeLogicalKey(path).value, SafeLogicalKey(path').value;
    if l != "" && l' != "" && root != "" {
      assert (root + [SLASH] + l)[|root| + 1..] == l;
      assert (root + [SLASH] + l')[|root| + 1..] == l';
    }
  }
}
