/** Destination resolution: the directory name derived from a repository URL,
    and the linear probe `name`, `name-1`, `name-2`, ... under the clone base
    directory until a path that does not exist is found, which is then
    created. The filesystem is the finite set of paths that exist. */
module Destination {
  import opened Text

  const GitSuffix: string := ".git"

  predicate EndsWith(s: string, suffix: string) {
    |suffix| <= |s| && s[|s| - |suffix|..] == suffix
  }

  /** Drops one trailing `.git`, as `name[:-4]` does after `name.endswith(".git")`. */
  function DropGitSuffix(name: string): (r: string)
    ensures EndsWith(name, GitSuffix) ==> r + GitSuffix == name
    ensures !EndsWith(name, GitSuffix) ==> r == name
  {
    if EndsWith(name, GitSuffix) then
      assert name == name[..|name| - 4] + name[|name| - 4..];
      name[..|name| - 4]
    else name
  }

  /** `repo_url.rstrip("/").split("/")[-1]` with one `.git` removed: trailing
      slashes are dropped one at a time, then the last piece is taken
      (DestinationNameIsExpression shows this is the composition of the three
      string operations, DestinationNameSegment which part of the URL it is). */
  function DestinationName(repoUrl: string): (name: string)
    ensures '/' !in name
    decreases |repoUrl|
  {
    if repoUrl != [] && repoUrl[|repoUrl| - 1] == '/' then DestinationName(repoUrl[..|repoUrl| - 1])
    else
      var last := LastPiece(repoUrl, '/');
      var name := DropGitSuffix(last);
      assert name <= last;
      name
  }

  /** DestinationName is the Python expression, operation by operation. */
  lemma {:induction false} DestinationNameIsExpression(repoUrl: string)
    ensures DestinationName(repoUrl) == DropGitSuffix(LastPiece(RStrip(repoUrl, IsSlash), '/'))
    decreases |repoUrl|
  {
    if repoUrl != [] && repoUrl[|repoUrl| - 1] == '/' {
      DestinationNameIsExpression(repoUrl[..|repoUrl| - 1]);
      RStripLast(repoUrl, IsSlash);
    } else {
      RStripUnique(repoUrl, IsSlash, repoUrl);
    }
  }

  /** A trailing `/` does not change the name. */
  lemma TrailingSlashIgnored(repoUrl: string)
    ensures DestinationName(repoUrl + "/") == DestinationName(repoUrl)
  {
    assert (repoUrl + "/")[..|repoUrl|] == repoUrl;
  }

  /** Every trailing `/` of the URL is removed first; the name, with the
      removed `.git` if there was one, is what follows the last remaining `/`,
      or the whole remaining URL when no `/` is left. */
  lemma DestinationNameSegment(repoUrl: string)
    ensures var trimmed := RStrip(repoUrl, IsSlash); var name := DestinationName(repoUrl);
      var seg := if EndsWith(LastPiece(trimmed, '/'), GitSuffix) then name + GitSuffix else name;
      && (trimmed == [] || trimmed[|trimmed| - 1] != '/')
      && EndsWith(trimmed, seg) && '/' !in seg
      && (|seg| == |trimmed| || trimmed[|trimmed| - |seg| - 1] == '/')
  {
    DestinationNameIsExpression(repoUrl);
    var trimmed := RStrip(repoUrl, IsSlash);
    var last := LastPiece(trimmed, '/');
    var name := DropGitSuffix(last);
    assert (if EndsWith(last, GitSuffix) then name + GitSuffix else name) == last;
  }

  /** A URL ending in a non-empty segment without `/` is named after that
      segment, less one `.git`. */
  lemma NameOfLastSegment(prefix: string, seg: string)
    requires seg != [] && '/' !in seg
    ensures DestinationName(prefix + "/" + seg) == DropGitSuffix(seg)
  {
    var u := prefix + "/" + seg;
    assert u[|u| - 1] == seg[|seg| - 1];
    assert u[|u| - |seg|..] == seg;
    assert u[|u| - |seg| - 1] == '/';
    LastPieceUnique(u, '/', seg);
  }

  lemma ExampleNameDropsGit()
    ensures DestinationName("https://github.com/o/r.git") == "r"
  {
    assert "https://github.com/o/r.git" == "https://github.com/o" + "/" + "r.git";
    NameOfLastSegment("https://github.com/o", "r.git");
    assert "r.git"[..1] == "r";
  }

  lemma ExampleNameDropsOneGit()
    ensures DestinationName("https://github.com/o/r.git.git") == "r.git"
  {
    assert "https://github.com/o/r.git.git" == "https://github.com/o" + "/" + "r.git.git";
    NameOfLastSegment("https://github.com/o", "r.git.git");
    assert "r.git.git"[..5] == "r.git";
  }

  lemma ExampleNameKeepsPlainSegment()
    ensures DestinationName("https://github.com/acme/widgets") == "widgets"
  {
    assert "https://github.com/acme/widgets" == "https://github.com/acme" + "/" + "widgets";
    NameOfLastSegment("https://github.com/acme", "widgets");
  }

  lemma ExampleNameDropsAllTrailingSlashes()
    ensures DestinationName("https://github.com/acme/widgets//") == "widgets"
  {
    var t := "https://github.com/acme/widgets";
    assert "https://github.com/acme/widgets//" == t + "/" + "/";
    TrailingSlashIgnored(t + "/");
    TrailingSlashIgnored(t);
    ExampleNameKeepsPlainSegment();
  }

  lemma ExampleNameEmpty()
    ensures DestinationName(".git") == ""
  {
    LastPieceUnique(".git", '/', ".git");
  }

  /** `base / component` in pathlib, for a component without `/` (the only
      kind the program joins: `Desktop`, `playground`, a destination name and
      `name-k`): an empty component and `.` leave the path as it is; any other
      component is appended after a `/`. The joined path extends `base`, and
      it is `base` itself exactly for those two. */
  function PathJoin(base: string, component: string): (p: string)
    ensures base <= p
    ensures p == base <==> component == "" || component == "."
  {
    if component == "" || component == "." then base else base + "/" + component
  }

  /** `Path.home() / "Desktop" / "playground"`. */
  function DefaultCloneBaseDir(home: string): (d: string)
    ensures d == home + "/Desktop/playground"
  {
    PathJoin(PathJoin(home, "Desktop"), "playground")
  }

  /** The `k`-th path the probe tries: `base/name` first, then `base/name-k`.
      From the second candidate on the component is never collapsed away, as
      it holds at least the `-` and one digit. */
  function Candidate(base: string, name: string, k: nat): (c: string)
    ensures k == 0 ==> c == PathJoin(base, name)
    ensures k > 0 ==> c == base + "/" + name + "-" + DecimalString(k)
  {
    if k == 0 then PathJoin(base, name) else PathJoin(base, name + "-" + DecimalString(k))
  }

  /** The probe never tries the same path twice. */
  lemma {:induction false} CandidatesDistinct(base: string, name: string, i: nat, j: nat)
    requires i < j
    ensures Candidate(base, name, i) != Candidate(base, name, j)
  {
    var sj := name + "-" + DecimalString(j);
    assert |sj| >= 2;
    assert Candidate(base, name, j) == base + "/" + sj;
    if i == 0 {
      assert |Candidate(base, name, i)| < |Candidate(base, name, j)|;
    } else {
      var si := name + "-" + DecimalString(i);
      assert |si| >= 2;
      if Candidate(base, name, i) == Candidate(base, name, j) {
        var p := |base| + 1 + |name| + 1;
        assert (base + "/" + si) == (base + "/" + name + "-") + DecimalString(i);
        assert (base + "/" + sj) == (base + "/" + name + "-") + DecimalString(j);
        assert DecimalString(i) == Candidate(base, name, i)[p..];
        assert DecimalString(j) == Candidate(base, name, j)[p..];
        DecimalStringInjective(i, j);
      }
    }
  }

  /** `k` is where the probe stops on `existing`: the `k`-th candidate is free
      and all earlier ones exist. */
  ghost predicate LeastFree(existing: set<string>, base: string, name: string, k: nat) {
    Candidate(base, name, k) !in existing
    && forall i :: 0 <= i < k ==> Candidate(base, name, i) in existing
  }

  /** At most one slot is the least free one. */
  lemma LeastFreeUnique(existing: set<string>, base: string, name: string, k1: nat, k2: nat)
    requires LeastFree(existing, base, name, k1) && LeastFree(existing, base, name, k2)
    ensures k1 == k2
  {
  }

  ghost function Tried(base: string, name: string, n: nat): set<string> {
    set i | 0 <= i < n :: Candidate(base, name, i)
  }

  /** The `while dest.exists()` loop: tries `base/name`, then `base/name-1`,
      `base/name-2`, ... and returns the first path not in `existing`. It ends
      because `existing` is finite and no candidate is tried twice. */
  method FindFreeSlot(existing: set<string>, base: string, name: string)
    returns (dest: string, ghost k: nat)
    ensures dest == Candidate(base, name, k) && LeastFree(existing, base, name, k)
    ensures PathJoin(base, name) !in existing ==> dest == PathJoin(base, name)
    ensures dest !in existing
  {
    dest := PathJoin(base, name);
    var counter := 1;
    while dest in existing
      invariant counter >= 1
      invariant dest == Candidate(base, name, counter - 1)
      invariant forall i :: 0 <= i < counter - 1 ==> Candidate(base, name, i) in existing
      decreases |existing - Tried(base, name, counter - 1)|
    {
      TriedShrinks(existing, base, name, counter - 1);
      dest := PathJoin(base, name + "-" + DecimalString(counter));
      counter := counter + 1;
    }
    k := counter - 1;
  }

  /** Finding the `n`-th candidate taken leaves fewer existing paths untried:
      the measure of the probe loop. */
  lemma TriedShrinks(existing: set<string>, base: string, name: string, n: nat)
    requires Candidate(base, name, n) in existing
    ensures |existing - Tried(base, name, n + 1)| < |existing - Tried(base, name, n)|
  {
    var dest := Candidate(base, name, n);
    var before := Tried(base, name, n);
    assert dest !in before by {
      forall i | 0 <= i < n ensures Candidate(base, name, i) != dest {
        CandidatesDistinct(base, name, i, n);
      }
    }
    assert Tried(base, name, n + 1) == before + {dest};
    assert existing - before == (existing - Tried(base, name, n + 1)) + {dest};
  }

  /** The filesystem, as the set of paths that exist, together with the
      clone base directory fixed when the program starts (`DEFAULT_CLONE_BASE_DIR`,
      derived from the home directory). */
  class FileSystem {
    var existing: set<string>
    const cloneBaseDir: string

    constructor (home: string, paths: set<string>)
      ensures existing == paths
      ensures cloneBaseDir == DefaultCloneBaseDir(home)
    {
      existing := paths;
      cloneBaseDir := DefaultCloneBaseDir(home);
    }

    /** `get_destination_directory`: derives the name, probes for the least free
        slot under the clone base directory, and creates it (`mkdir`). The
        ghost `k` is the number of candidates found taken. */
    method GetDestinationDirectory(repoUrl: string) returns (dest: string, ghost k: nat)
      modifies this
      ensures dest !in old(existing)
      ensures existing == old(existing) + {dest}
      ensures dest == Candidate(cloneBaseDir, DestinationName(repoUrl), k)
      ensures LeastFree(old(existing), cloneBaseDir, DestinationName(repoUrl), k)
    {
      var name := DestinationName(repoUrl);
      dest, k := FindFreeSlot(existing, cloneBaseDir, name);
      existing := existing + {dest};
    }
  }

  /** Two successive resolutions of the same URL give distinct directories,
      both of which exist afterwards. */
  method ResolveTwice(fs: FileSystem, repoUrl: string)
    returns (first: string, second: string)
    modifies fs
    ensures first != second
    ensures first !in old(fs.existing) && second !in old(fs.existing)
    ensures fs.existing == old(fs.existing) + {first, second}
  {
    ghost var before := fs.existing;
    ghost var k;
    first, k := fs.GetDestinationDirectory(repoUrl);
    ghost var between := fs.existing;
    assert between == before + {first};
    second, k := fs.GetDestinationDirectory(repoUrl);
    assert second !in between;
  }

  lemma ExampleWidgetsName()
    ensures DestinationName("https://github.com/acme/widgets.git") == "widgets"
  {
    assert "https://github.com/acme/widgets.git" == "https://github.com/acme" + "/" + "widgets.git";
    NameOfLastSegment("https://github.com/acme", "widgets.git");
    assert "widgets.git"[..7] == "widgets";
  }

  lemma ExampleWidgetsPaths()
    ensures DefaultCloneBaseDir("/Users/u") == "/Users/u/Desktop/playground"
    ensures Candidate("/Users/u/Desktop/playground", "widgets", 0) == "/Users/u/Desktop/playground/widgets"
  {
  }

  lemma ExampleWidgetsSuffixedPaths()
    ensures Candidate("/Users/u/Desktop/playground", "widgets", 1) == "/Users/u/Desktop/playground/widgets-1"
    ensures Candidate("/Users/u/Desktop/playground", "widgets", 2) == "/Users/u/Desktop/playground/widgets-2"
  {
    assert DecimalString(1) == "1";
    assert DecimalString(2) == "2";
  }

  /** After the first `n` candidates have been taken on top of `e`, a
      probe that finds the `n`-th one free in `e` stops there and takes it. */
  lemma NextCandidate(e: set<string>, base: string, name: string, n: nat, d: string, k: nat)
    requires Candidate(base, name, n) !in e
    requires d == Candidate(base, name, k) && LeastFree(e + Tried(base, name, n), base, name, k)
    ensures d == Candidate(base, name, n)
    ensures e + Tried(base, name, n) + {d} == e + Tried(base, name, n + 1)
  {
    forall i | 0 <= i < n ensures Candidate(base, name, i) != Candidate(base, name, n) {
      CandidatesDistinct(base, name, i, n);
    }
    assert LeastFree(e + Tried(base, name, n), base, name, n);
    LeastFreeUnique(e + Tried(base, name, n), base, name, n, k);
    assert Tried(base, name, n + 1) == Tried(base, name, n) + {d};
  }

  /** Three probes in a row on `e`, each seeing the paths the previous ones
      created, take the first three candidates when none of them is in `e`. */
  lemma ThreeProbes(e: set<string>, base: string, name: string,
                    d0: string, k0: nat, d1: string, k1: nat, d2: string, k2: nat)
    requires forall i :: 0 <= i < 3 ==> Candidate(base, name, i) !in e
    requires d0 == Candidate(base, name, k0) && LeastFree(e, base, name, k0)
    requires d1 == Candidate(base, name, k1) && LeastFree(e + {d0}, base, name, k1)
    requires d2 == Candidate(base, name, k2) && LeastFree(e + {d0} + {d1}, base, name, k2)
    ensures d0 == Candidate(base, name, 0) && d1 == Candidate(base, name, 1) && d2 == Candidate(base, name, 2)
    ensures e + {d0} + {d1} + {d2} == e + Tried(base, name, 3)
  {
    assert Candidate(base, name, 0) !in e && Candidate(base, name, 1) !in e && Candidate(base, name, 2) !in e;
    assert e + Tried(base, name, 0) == e;
    NextCandidate(e, base, name, 0, d0, k0);
    NextCandidate(e, base, name, 1, d1, k1);
    NextCandidate(e, base, name, 2, d2, k2);
  }

  /** Resolving the same URL three times on a filesystem where none of its
      first three candidates exist gives those candidates, in order. */
  method ProbeThrice(fs: FileSystem, repoUrl: string)
    returns (d0: string, d1: string, d2: string)
    modifies fs
    requires forall i :: 0 <= i < 3 ==> Candidate(fs.cloneBaseDir, DestinationName(repoUrl), i) !in fs.existing
    ensures d0 == Candidate(fs.cloneBaseDir, DestinationName(repoUrl), 0)
    ensures d1 == Candidate(fs.cloneBaseDir, DestinationName(repoUrl), 1)
    ensures d2 == Candidate(fs.cloneBaseDir, DestinationName(repoUrl), 2)
    ensures fs.existing == old(fs.existing) + Tried(fs.cloneBaseDir, DestinationName(repoUrl), 3)
  {
    ghost var e := fs.existing;
    ghost var k0, k1, k2;
    d0, k0 := fs.GetDestinationDirectory(repoUrl);
    d1, k1 := fs.GetDestinationDirectory(repoUrl);
    d2, k2 := fs.GetDestinationDirectory(repoUrl);
    ThreeProbes(e, fs.cloneBaseDir, DestinationName(repoUrl), d0, k0, d1, k1, d2, k2);
  }

  /** A URL whose directory does not exist yet is cloned into `base/widgets`;
      with `base/widgets` taken it goes to `base/widgets-1`, and with that
      taken as well to `base/widgets-2`. */
  method ExampleProbe() returns (d0: string, d1: string, d2: string)
    ensures d0 == "/Users/u/Desktop/playground/widgets"
    ensures d1 == "/Users/u/Desktop/playground/widgets-1"
    ensures d2 == "/Users/u/Desktop/playground/widgets-2"
  {
    var url := "https://github.com/acme/widgets.git";
    ExampleWidgetsName();
    ExampleWidgetsPaths();
    ExampleWidgetsSuffixedPaths();
    var fs := new FileSystem("/Users/u", {});
    d0, d1, d2 := ProbeThrice(fs, url);
  }
}
