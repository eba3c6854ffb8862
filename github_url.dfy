/** The GitHub repository URL pattern `https?://github\.com/[^/]+/[^/\s]+`,
    used with a match anchored at the start of the string only. The pattern
    is written out as a scanner (IsGitHubUrl) and, independently, as the
    existence of a decomposition that the regular expression describes
    (PatternMatches); IsGitHubUrlCorrect proves the two agree. */
module GitHubUrl {
  import opened Wrappers
  import opened Text

  const HttpPrefix: string := "http://github.com/"
  const HttpsPrefix: string := "https://github.com/"

  /** A character allowed at the start of the repository segment: `[^/\s]`. */
  predicate IsRepoChar(c: char) {
    c != '/' && !IsSpace(c)
  }

  /** Where the literal part `https?://github\.com/` ends, if `s` starts with it. */
  function SchemeEnd(s: string): (k: Option<nat>)
    ensures k.Some? ==> k.value <= |s|
    ensures k == Some(19) <==> HttpsPrefix <= s
    ensures k == Some(18) <==> HttpPrefix <= s
    ensures k.None? <==> !(HttpsPrefix <= s) && !(HttpPrefix <= s)
  {
    PrefixesExclusive(s);
    if HttpsPrefix <= s then Some(|HttpsPrefix|)
    else if HttpPrefix <= s then Some(|HttpPrefix|)
    else None
  }

  /** No string starts with both `http://` and `https://`. */
  lemma PrefixesExclusive(s: string)
    ensures !(HttpsPrefix <= s && HttpPrefix <= s)
  {
    if HttpsPrefix <= s {
      assert s[4] == HttpsPrefix[4] != HttpPrefix[4];
    }
  }

  /** The first index at or after `from` holding `c`, or `|s|` if there is none. */
  function IndexOf(s: string, c: char, from: nat): (j: nat)
    requires from <= |s|
    ensures from <= j <= |s|
    ensures j < |s| ==> s[j] == c
    ensures forall i :: from <= i < j ==> s[i] != c
    decreases |s| - from
  {
    if from == |s| || s[from] == c then from else IndexOf(s, c, from + 1)
  }

  /** `pattern.match(s)` succeeds: after the scheme and host, the owner runs up
      to the first `/`, is not empty, and the character after that `/` exists
      and may start a repository segment. A match starts with the literal
      part and holds at least one owner character, a `/` and one repository
      character after it. */
  predicate IsGitHubUrl(s: string): (b: bool)
    ensures b ==> SchemeEnd(s).Some? && |s| >= |HttpPrefix| + 3
  {
    match SchemeEnd(s)
    case None => false
    case Some(k) =>
      var j := IndexOf(s, '/', k);
      k < j && j + 1 < |s| && IsRepoChar(s[j + 1])
  }

  /** The regular expression matches a prefix of `s` with the literal part
      ending at `k`, the owner `[^/]+` occupying `s[k..j]`, the `/` at `j`,
      and the first character of `[^/\s]+` at `j + 1`. Such a decomposition
      is unique: the literal part ends where SchemeEnd says, and the owner
      runs up to the first `/` after it. */
  ghost predicate MatchesAt(s: string, k: int, j: int): (b: bool)
    ensures b ==> 0 <= k <= |s| && SchemeEnd(s) == Some(k as nat) && j == IndexOf(s, '/', k as nat)
  {
    var b :=
      && ((k == |HttpPrefix| && HttpPrefix <= s) || (k == |HttpsPrefix| && HttpsPrefix <= s))
      && k < j && j + 1 < |s|
      && (forall i :: k <= i < j ==> s[i] != '/')
      && s[j] == '/'
      && IsRepoChar(s[j + 1]);
    if b then IndexOfIs(s, '/', k as nat, j as nat); b else b
  }

  /** `pattern.match(s)` succeeds in the sense of the regular expression: some
      decomposition exists. A matching text is at least as long as the
      shortest match, `http://github.com/o/r`. */
  ghost predicate PatternMatches(s: string): (b: bool)
    ensures b ==> |s| >= |HttpPrefix| + 3
  {
    exists k, j :: MatchesAt(s, k, j)
  }

  /** The scanner decides exactly the pattern. */
  lemma IsGitHubUrlCorrect(s: string)
    ensures IsGitHubUrl(s) <==> PatternMatches(s)
  {
    if IsGitHubUrl(s) {
      var k := SchemeEnd(s).value;
      assert MatchesAt(s, k, IndexOf(s, '/', k));
    }
    if PatternMatches(s) {
      var k, j :| MatchesAt(s, k, j);
      assert SchemeEnd(s) == Some(k);
      var j' := IndexOf(s, '/', k);
      assert j' == j;
    }
  }

  /** Matching is anchored only at the start: whatever follows a matching
      string does not stop it matching. */
  lemma MatchIgnoresSuffix(s: string, t: string)
    requires IsGitHubUrl(s)
    ensures IsGitHubUrl(s + t)
  {
    IsGitHubUrlCorrect(s);
    IsGitHubUrlCorrect(s + t);
    var k, j :| MatchesAt(s, k, j);
    assert (s + t)[..|s|] == s;
    assert MatchesAt(s + t, k, j);
  }

  /** IndexOf is determined by its contract. */
  lemma IndexOfIs(s: string, c: char, from: nat, j: nat)
    requires from <= j <= |s|
    requires j < |s| ==> s[j] == c
    requires forall i :: from <= i < j ==> s[i] != c
    ensures IndexOf(s, c, from) == j
  {
  }

  /** A URL `scheme://github.com/owner/rest` with an owner that is not empty
      and holds no `/` matches exactly when `rest` starts with a character
      allowed in a repository name. */
  lemma OwnerThenRepo(p: string, owner: string, rest: string)
    requires p == HttpPrefix || p == HttpsPrefix
    requires owner != [] && '/' !in owner
    ensures IsGitHubUrl(p + owner + "/" + rest) <==> rest != [] && IsRepoChar(rest[0])
  {
    var s := p + owner + "/" + rest;
    assert p <= s;
    forall i | |p| <= i < |p| + |owner| ensures s[i] != '/' {
      assert s[i] == owner[i - |p|];
    }
    IndexOfIs(s, '/', |p|, |p| + |owner|);
    assert |rest| > 0 ==> s[|p| + |owner| + 1] == rest[0];
  }

  /** An empty owner segment never matches. */
  lemma EmptyOwner(p: string, rest: string)
    requires p == HttpPrefix || p == HttpsPrefix
    ensures !IsGitHubUrl(p + "/" + rest)
  {
    var s := p + "/" + rest;
    assert p <= s;
    IndexOfIs(s, '/', |p|, |p|);
  }

  /** Without a `/` after the owner there is no repository segment. */
  lemma OwnerOnly(p: string, owner: string)
    requires p == HttpPrefix || p == HttpsPrefix
    requires '/' !in owner
    ensures !IsGitHubUrl(p + owner)
  {
    var s := p + owner;
    assert p <= s;
    forall i | |p| <= i < |s| ensures s[i] != '/' {
      assert s[i] == owner[i - |p|];
    }
    IndexOfIs(s, '/', |p|, |s|);
  }

  lemma ExampleHttps()
    ensures IsGitHubUrl("https://github.com/acme/widgets")
  {
    assert "https://github.com/acme/widgets" == HttpsPrefix + "acme" + "/" + "widgets";
    OwnerThenRepo(HttpsPrefix, "acme", "widgets");
  }

  lemma ExampleHttpWithGitSuffix()
    ensures IsGitHubUrl("http://github.com/acme/widgets.git")
  {
    assert "http://github.com/acme/widgets.git" == HttpPrefix + "acme" + "/" + "widgets.git";
    OwnerThenRepo(HttpPrefix, "acme", "widgets.git");
  }

  /** Whitespace is allowed in the owner segment... */
  lemma ExampleSpaceInOwner()
    ensures IsGitHubUrl("https://github.com/my org/w")
  {
    assert "https://github.com/my org/w" == HttpsPrefix + "my org" + "/" + "w";
    OwnerThenRepo(HttpsPrefix, "my org", "w");
  }

  /** ...but not at the start of the repository segment. */
  lemma ExampleSpaceBeforeRepo()
    ensures !IsGitHubUrl("https://github.com/acme/ widgets")
  {
    assert "https://github.com/acme/ widgets" == HttpsPrefix + "acme" + "/" + " widgets";
    OwnerThenRepo(HttpsPrefix, "acme", " widgets");
  }

  lemma ExampleMissingSegments()
    ensures !IsGitHubUrl("https://github.com/acme")
    ensures !IsGitHubUrl("https://github.com//widgets")
  {
    assert "https://github.com/acme" == HttpsPrefix + "acme";
    OwnerOnly(HttpsPrefix, "acme");
    assert "https://github.com//widgets" == HttpsPrefix + "/" + "widgets";
    EmptyOwner(HttpsPrefix, "widgets");
  }

  lemma ExampleOtherHosts()
    ensures !IsGitHubUrl("https://gitlab.com/acme/widgets")
    ensures !IsGitHubUrl("hello")
  {
    var s := "https://gitlab.com/acme/widgets";
    assert s[11] != HttpsPrefix[11] && s[10] != HttpPrefix[10];
    var t := "hello";
    assert |t| < |HttpPrefix|;
  }
}
