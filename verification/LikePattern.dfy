/** How the record queries match a directory prefix: SQL LIKE, with the prefix's own characters unescaped. */
module LikePattern {
  /** `%` is any text, `_` any one character, a backslash makes the next character literal. */
  predicate Like(pattern: string, s: string)
    decreases |pattern|
  {
    if pattern == "" then s == ""
    else if pattern[0] == '%' then exists k | 0 <= k <= |s| :: Like(pattern[1..], s[k..])
    else if pattern[0] == '_' then s != "" && Like(pattern[1..], s[1..])
    else if pattern[0] == '\\' then
      |pattern| > 1 && s != "" && s[0] == pattern[1] && Like(pattern[2..], s[1..])
    else s != "" && s[0] == pattern[0] && Like(pattern[1..], s[1..])
  }

  /** `column.startswith(prefix)` */
  predicate StartsLike(prefix: string, s: string) {
    Like(prefix + "%", s)
  }

  predicate HasWildcard(prefix: string) {
    '_' in prefix || '%' in prefix
  }

  lemma AnyText(s: string)
    ensures Like("%", s)
  {
    assert s[|s|..] == "" && Like("%"[1..], s[|s|..]);
  }

  /** Without wildcards the query selects exactly what starts with the prefix. */
  lemma {:induction false} LiteralPrefix(prefix: string, s: string)
    requires !HasWildcard(prefix) && '\\' !in prefix
    ensures StartsLike(prefix, s) <==> prefix <= s
    decreases |prefix|
  {
    if prefix == "" {
      assert prefix + "%" == "%";
      AnyText(s);
    } else {
      assert prefix == [prefix[0]] + prefix[1..];
      assert (prefix + "%")[1..] == prefix[1..] + "%";
      if s != "" && s[0] == prefix[0] {
        LiteralPrefix(prefix[1..], s[1..]);
        assert prefix <= s <==> prefix[1..] <= s[1..];
      }
    }
  }

  /** Equal except where the prefix has a wildcard. */
  predicate Fits(prefix: string, s: string) {
    |prefix| == |s| && forall i | 0 <= i < |s| :: prefix[i] == s[i] || prefix[i] == '_' || prefix[i] == '%'
  }

  lemma {:induction false} FittingIsSelected(prefix: string, s: string)
    requires Fits(prefix, s) && '\\' !in prefix
    ensures StartsLike(prefix, s)
    decreases |prefix|
  {
    if prefix == "" {
      assert prefix + "%" == "%";
      AnyText(s);
    } else {
      assert forall i | 0 <= i < |s| - 1 :: prefix[1..][i] == prefix[i + 1] && s[1..][i] == s[i + 1];
      assert (prefix + "%")[1..] == prefix[1..] + "%";
      assert prefix[0] in prefix;
      FittingIsSelected(prefix[1..], s[1..]);
      assert Like((prefix + "%")[1..], s[1..]);
    }
  }

  /** Whatever starts with the prefix is selected, wildcards or not. */
  lemma {:induction false} OwnIsSelected(prefix: string, s: string)
    requires prefix <= s && '\\' !in prefix
    ensures StartsLike(prefix, s)
    decreases |prefix|
  {
    if prefix == "" {
      assert prefix + "%" == "%";
      AnyText(s);
    } else {
      assert (prefix + "%")[1..] == prefix[1..] + "%" && prefix[0] in prefix;
      OwnIsSelected(prefix[1..], s[1..]);
      assert Like((prefix + "%")[1..], s[1..]);
    }
  }

  function Slashes(s: string): nat {
    if s == "" then 0 else (if s[0] == '/' then 1 else 0) + Slashes(s[1..])
  }

  lemma {:induction false} SlashesFrom(s: string, k: nat)
    requires k <= |s|
    ensures Slashes(s[k..]) <= Slashes(s)
  {
    if k > 0 {
      assert s[k..] == s[1..][k - 1..];
      SlashesFrom(s[1..], k - 1);
    } else {
      assert s[0..] == s;
    }
  }

  /** A slash of a pattern matches a slash. */
  lemma {:induction false} SlashesMatch(pattern: string, s: string)
    requires Like(pattern, s) && '\\' !in pattern
    ensures Slashes(pattern) <= Slashes(s)
    decreases |pattern|
  {
    if pattern != "" {
      assert pattern[0] in pattern && forall c | c in pattern[1..] :: c in pattern;
      if pattern[0] == '%' {
        var k :| 0 <= k <= |s| && Like(pattern[1..], s[k..]);
        SlashesMatch(pattern[1..], s[k..]);
        SlashesFrom(s, k);
      } else {
        SlashesMatch(pattern[1..], s[1..]);
      }
    }
  }

  lemma {:induction false} SlashesAppend(s: string, rest: string)
    ensures Slashes(s + rest) == Slashes(s) + Slashes(rest)
  {
    if s == "" {
      assert s + rest == rest;
    } else {
      assert (s + rest)[1..] == s[1..] + rest;
      SlashesAppend(s[1..], rest);
    }
  }

  /** A directory's own path is not below it, even by its pattern. */
  lemma NotBelowItself(path: string)
    requires '\\' !in path
    ensures !StartsLike(path + "/", path)
  {
    SlashesAppend(path, "/%");
    assert Slashes("/%") == 1 + Slashes("/%"[1..]);
    assert path + "/" + "%" == path + "/%";
    if StartsLike(path + "/", path) {
      SlashesMatch(path + "/%", path);
    }
  }

  /**
   * The selection is the directory's own content exactly when its path has no
   * `_` and no `%`; a path with either also selects records beside it. Paths
   * have no backslash, because normalizing replaces them.
   */
  lemma PrefixSelectsItsOwn(prefix: string)
    requires '\\' !in prefix
    ensures (forall s :: StartsLike(prefix, s) <==> prefix <= s) <==> !HasWildcard(prefix)
  {
    if HasWildcard(prefix) {
      var i :| 0 <= i < |prefix| && (prefix[i] == '_' || prefix[i] == '%');
      var beside := prefix[i := 'x'];
      FittingIsSelected(prefix, beside);
      assert beside[i] != prefix[i];
      assert StartsLike(prefix, beside) && !(prefix <= beside);
    } else {
      forall s ensures StartsLike(prefix, s) <==> prefix <= s {
        LiteralPrefix(prefix, s);
      }
    }
  }
}
