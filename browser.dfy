/** Browser selection: the foreground application's name, as reported by the
    OS-automation collaborator, is matched against the ordered table of
    supported browsers. The table's AppleScript bodies are not modelled; a
    browser's script is known by the browser's name. */
module Browser {
  import opened Wrappers
  import opened Text

  /** The keys of the browser-script table, in declaration order. */
  const BrowserNames: seq<string> :=
    ["zen", "Google Chrome", "Safari", "Arc", "Firefox", "Brave Browser", "Microsoft Edge"]

  /** The table has seven keys, none of them empty and no two alike, with
      `zen` tried first and `Microsoft Edge` last. */
  lemma BrowserNamesKeys()
    ensures |BrowserNames| == 7
    ensures BrowserNames[0] == "zen" && BrowserNames[6] == "Microsoft Edge"
    ensures forall i :: 0 <= i < |BrowserNames| ==> BrowserNames[i] != ""
    ensures forall i, j :: 0 <= i < j < |BrowserNames| ==> BrowserNames[i] != BrowserNames[j]
  {
  }

  /** The first of `names`, in order, that occurs in `app`. Whatever it
      returns is one of `names` and occurs in `app`. */
  function FirstContained(app: string, names: seq<string>): (r: Option<string>)
    ensures r.Some? ==> r.value in names && Contains(app, r.value)
    decreases |names|
  {
    if names == [] then None
    else if Contains(app, names[0]) then Some(names[0])
    else FirstContained(app, names[1..])
  }

  /** FirstContained returns a name of the table exactly when some name occurs
      in `app`, and then the first one in table order that does. */
  lemma {:induction false} FirstContainedSpec(app: string, names: seq<string>)
    ensures FirstContained(app, names).None? <==> forall i :: 0 <= i < |names| ==> !Contains(app, names[i])
    ensures FirstContained(app, names).Some? ==>
      exists i :: 0 <= i < |names| && names[i] == FirstContained(app, names).value
        && Contains(app, names[i]) && forall j :: 0 <= j < i ==> !Contains(app, names[j])
    decreases |names|
  {
    if names != [] && !Contains(app, names[0]) {
      FirstContainedSpec(app, names[1..]);
      var r := FirstContained(app, names[1..]);
      if r.Some? {
        var i :| 0 <= i < |names| - 1 && names[1..][i] == r.value
          && Contains(app, names[1..][i]) && forall j :: 0 <= j < i ==> !Contains(app, names[1..][j]);
        assert names[i + 1] == r.value;
        assert forall j :: 0 <= j < i + 1 ==> !Contains(app, names[j]) by {
          forall j | 0 <= j < i + 1 ensures !Contains(app, names[j]) {
            if j > 0 { assert names[j] == names[1..][j - 1]; }
          }
        }
      } else {
        forall i | 0 <= i < |names| ensures !Contains(app, names[i]) {
          if i > 0 { assert names[i] == names[1..][i - 1]; }
        }
      }
    } else if names != [] {
      assert Contains(app, names[0]);
    }
  }

  /** What `get_active_browser` returns for a given answer of the collaborator
      asked for the foreground application's name. */
  function ActiveBrowser(frontApp: Outcome<string>): (b: Option<string>)
    ensures frontApp.Raised? ==> b.None?
    ensures b.Some? ==> b.value in BrowserNames && Contains(Strip(frontApp.value), b.value)
  {
    match frontApp
    case Raised(_) => None
    case Ok(out) => FirstContained(Strip(out), BrowserNames)
  }

  /** Any browser returned is a key of the table, and not the empty string, so
      the guard `active_browser and active_browser in BROWSER_SCRIPTS` of the
      detector always holds for it. */
  lemma ActiveBrowserIsKey(frontApp: Outcome<string>)
    ensures ActiveBrowser(frontApp).Some? ==>
      ActiveBrowser(frontApp).value in BrowserNames && ActiveBrowser(frontApp).value != ""
  {
    if frontApp.Ok? {
      FirstContainedSpec(Strip(frontApp.value), BrowserNames);
    }
  }

  /** `get_active_browser`: the collaborator's answer is stripped and the table
      keys are tried in order; the first one contained in the name is returned.
      A failing collaborator gives no browser. */
  method GetActiveBrowser(frontApp: Outcome<string>) returns (browser: Option<string>)
    ensures browser == ActiveBrowser(frontApp)
  {
    if frontApp.Raised? {
      return None;
    }
    var activeApp := Strip(frontApp.value);
    for i := 0 to |BrowserNames|
      invariant FirstContained(activeApp, BrowserNames[i..]) == FirstContained(activeApp, BrowserNames)
    {
      assert BrowserNames[i..][1..] == BrowserNames[i + 1..];
      if Contains(activeApp, BrowserNames[i]) {
        return Some(BrowserNames[i]);
      }
    }
    return None;
  }

  /** A name holding a character that does not appear in `hay` does not occur in it. */
  lemma NotContainedChar(hay: string, needle: string, m: nat)
    requires m < |needle| && needle[m] !in hay
    ensures !Contains(hay, needle)
  {
    forall k ensures !OccursAt(hay, needle, k) {
      if 0 <= k <= |hay| - |needle| {
        assert hay[k..k + |needle|][m] == hay[k + m];
      }
    }
  }

  lemma SafariFirst()
    ensures FirstContained("Safari", BrowserNames) == Some("Safari")
  {
    assert OccursAt("Safari", "Safari", 0);
    NotContainedChar("Safari", "zen", 0);
    NotContainedChar("Safari", "Google Chrome", 0);
    assert BrowserNames[1..][1..] == BrowserNames[2..];
  }

  /** `osascript` ends its answer with a newline, which the strip removes. */
  lemma StripNewline(name: string)
    requires name != [] && !IsSpace(name[0]) && !IsSpace(name[|name| - 1])
    ensures Strip(name + "\n") == name
  {
    var s := name + "\n";
    assert LStrip(s, IsSpace) == s;
    assert s[..|s| - 1] == name;
    assert RStrip(name, IsSpace) == name;
  }

  /** A foreground application reported as `Safari` (with the newline
      `osascript` prints) selects Safari. */
  lemma ExampleSafari()
    ensures ActiveBrowser(Ok("Safari\n")) == Some("Safari")
  {
    assert "Safari\n" == "Safari" + "\n";
    StripNewline("Safari");
    SafariFirst();
  }

  /** Some character of `key` does not appear in `app`. */
  predicate LacksCharOf(app: string, key: string) {
    exists m :: 0 <= m < |key| && key[m] !in app
  }

  /** A name that lacks, for every key of the table, some character of that
      key selects no browser. */
  lemma NoKeyContained(app: string)
    requires forall key :: key in BrowserNames ==> LacksCharOf(app, key)
    ensures FirstContained(app, BrowserNames) == None
  {
    forall i | 0 <= i < |BrowserNames| ensures !Contains(app, BrowserNames[i]) {
      var key := BrowserNames[i];
      assert LacksCharOf(app, key);
      var m :| 0 <= m < |key| && key[m] !in app;
      NotContainedChar(app, key, m);
    }
    FirstContainedSpec(app, BrowserNames);
  }

  /** An application that is not a supported browser, and a failing
      collaborator, both give no browser. `Finder` lacks the `z` of `zen`, the
      `G` of `Google Chrome`, the `S` of `Safari`, the `A` of `Arc`, the `x` of
      `Firefox`, the `B` of `Brave Browser` and the `M` of `Microsoft Edge`. */
  lemma ExampleNoBrowser()
    ensures ActiveBrowser(Ok("Finder")) == None
    ensures ActiveBrowser(Raised("osascript failed")) == None
  {
    var app := "Finder";
    assert 'z' !in app && 'G' !in app && 'S' !in app && 'A' !in app;
    assert 'x' !in app && 'B' !in app && 'M' !in app;
    LacksOneCharOfEachKey(app);
    StripUnchanged(app);
    NoBrowserFor(app);
  }

  /** Lacking `z`, `G`, `S`, `A`, `x`, `B` and `M` is lacking some character
      of every key. */
  lemma LacksOneCharOfEachKey(app: string)
    requires 'z' !in app && 'G' !in app && 'S' !in app && 'A' !in app
    requires 'x' !in app && 'B' !in app && 'M' !in app
    ensures forall key :: key in BrowserNames ==> LacksCharOf(app, key)
  {
    forall key | key in BrowserNames ensures LacksCharOf(app, key) {
      var m := if key == "Firefox" then 6 else 0;
      assert key[m] in {'z', 'G', 'S', 'A', 'x', 'B', 'M'};
    }
  }

  /** The collaborator's answer, once stripped, lacks some character of every
      key, and so names no supported browser. */
  lemma NoBrowserFor(out: string)
    requires forall key :: key in BrowserNames ==> LacksCharOf(Strip(out), key)
    ensures ActiveBrowser(Ok(out)) == None
  {
    NoKeyContained(Strip(out));
  }
}
