/** `detect_github_url`: the URL of the active browser's current page if it
    matches the GitHub pattern, otherwise the clipboard text if that matches,
    otherwise nothing. Every collaborator is a given outcome: the foreground
    application's name, the output of the selected browser's script (a
    function of the browser's name) and the clipboard text, each of which may
    instead have raised. */
module Detection {
  import opened Wrappers
  import opened Text
  import opened GitHubUrl
  import opened Browser

  /** A collaborator's output, stripped, if it matches the pattern. */
  function MatchingText(out: string): (r: Option<string>)
    ensures r.Some? <==> IsGitHubUrl(Strip(out))
    ensures r.Some? ==> r.value == Strip(out)
  {
    var text := Strip(out);
    if IsGitHubUrl(text) then Some(text) else None
  }

  /** The browser step (tray_clone.py:182-197): no supported browser, a script
      that raised, or a non-matching URL all give nothing. */
  function FromBrowser(frontApp: Outcome<string>, browserScript: string -> Outcome<string>): (r: Option<string>)
    ensures r.Some? <==> BrowserMatches(frontApp, browserScript)
    ensures r.Some? ==> r.value == Strip(browserScript(ActiveBrowser(frontApp).value).value)
  {
    ActiveBrowserIsKey(frontApp);
    match ActiveBrowser(frontApp)
    case None => None
    case Some(browser) =>
      if browser != "" && browser in BrowserNames then
        match browserScript(browser)
        case Raised(_) => None
        case Ok(url) => MatchingText(url)
      else None
  }

  /** The clipboard step (tray_clone.py:199-212): a clipboard that could not
      be read gives nothing, a readable one its stripped text if that matches. */
  function FromClipboard(clipboard: Outcome<string>): (r: Option<string>)
    ensures r.Some? <==> clipboard.Ok? && IsGitHubUrl(Strip(clipboard.value))
    ensures r.Some? ==> r.value == Strip(clipboard.value)
  {
    match clipboard
    case Raised(_) => None
    case Ok(clip) => MatchingText(clip)
  }

  /** Whether the browser step yields a matching URL; stated without the
      guard of tray_clone.py:183, which ActiveBrowserIsKey shows always holds. */
  predicate BrowserMatches(frontApp: Outcome<string>, browserScript: string -> Outcome<string>) {
    && ActiveBrowser(frontApp).Some?
    && browserScript(ActiveBrowser(frontApp).value).Ok?
    && IsGitHubUrl(Strip(browserScript(ActiveBrowser(frontApp).value).value))
  }

  /** The detector. Any URL it returns matches the pattern and is the
      stripped output of the browser's script or of the clipboard. */
  function DetectGitHubUrl(frontApp: Outcome<string>, browserScript: string -> Outcome<string>,
                           clipboard: Outcome<string>): (r: Option<string>)
    ensures r.Some? ==> IsGitHubUrl(r.value)
    ensures r.Some? ==>
      || (BrowserMatches(frontApp, browserScript) && r.value == Strip(browserScript(ActiveBrowser(frontApp).value).value))
      || (clipboard.Ok? && r.value == Strip(clipboard.value))
  {
    ActiveBrowserIsKey(frontApp);
    var fromBrowser := FromBrowser(frontApp, browserScript);
    if fromBrowser.Some? then fromBrowser else FromClipboard(clipboard)
  }

  /** A matching browser URL is returned, whatever the clipboard holds: the
      clipboard is not consulted. */
  lemma BrowserPreferred(frontApp: Outcome<string>, browserScript: string -> Outcome<string>,
                         clipboard: Outcome<string>)
    requires BrowserMatches(frontApp, browserScript)
    ensures DetectGitHubUrl(frontApp, browserScript, clipboard)
         == Some(Strip(browserScript(ActiveBrowser(frontApp).value).value))
  {
    ActiveBrowserIsKey(frontApp);
  }

  /** When the browser step gives nothing (no supported browser, the script
      raised, or its URL does not match), the result is the clipboard step's. */
  lemma ClipboardFallback(frontApp: Outcome<string>, browserScript: string -> Outcome<string>,
                          clipboard: Outcome<string>)
    requires !BrowserMatches(frontApp, browserScript)
    ensures DetectGitHubUrl(frontApp, browserScript, clipboard) == FromClipboard(clipboard)
    ensures DetectGitHubUrl(frontApp, browserScript, clipboard).Some? <==>
      clipboard.Ok? && IsGitHubUrl(Strip(clipboard.value))
  {
    ActiveBrowserIsKey(frontApp);
  }

  /** Nothing is detected exactly when neither source yields a matching text. */
  lemma NothingDetected(frontApp: Outcome<string>, browserScript: string -> Outcome<string>,
                        clipboard: Outcome<string>)
    ensures DetectGitHubUrl(frontApp, browserScript, clipboard).None? <==>
      !BrowserMatches(frontApp, browserScript) && !(clipboard.Ok? && IsGitHubUrl(Strip(clipboard.value)))
  {
    ActiveBrowserIsKey(frontApp);
  }

  /** An unrecognised application and a clipboard holding `hello` detect
      nothing, and it is not an error. */
  lemma ExampleNothingDetected(browserScript: string -> Outcome<string>)
    ensures DetectGitHubUrl(Ok("Finder"), browserScript, Ok("hello")) == None
  {
    ExampleNoBrowser();
    StripUnchanged("hello");
    ExampleOtherHosts();
  }

  /** Safari showing a repository page wins over whatever the clipboard
      holds, another repository URL included. */
  lemma ExampleSafariPreferred(browserScript: string -> Outcome<string>, clipboard: Outcome<string>)
    requires browserScript("Safari") == Ok("https://github.com/acme/widgets")
    ensures DetectGitHubUrl(Ok("Safari\n"), browserScript, clipboard) == Some("https://github.com/acme/widgets")
  {
    ExampleSafari();
    StripUnchanged("https://github.com/acme/widgets");
    ExampleHttps();
    BrowserPreferred(Ok("Safari\n"), browserScript, clipboard);
  }
}
