/** `clone_repo`, the handler of the "Clone Repo..." menu item, as a function
    from the outcomes of its collaborators to what the user sees: the text the
    prompt window is pre-filled with, how the invocation ends, and the
    sequence of effects (clone, IDE launch, alert, notification) it causes. */
module CloneFlow {
  import opened Wrappers
  import opened Text
  import opened GitHubUrl
  import opened Detection

  const IdeAppName: string := "Cursor"
  const NotificationTitle: string := "Clone Success"
  const NotificationMessage: string := "Repository cloned!"

  /** What `rumps.Window(...).run()` gives: no window at all, or the response
      with whether the Clone button was pressed and the text in the field. */
  datatype Window = NoWindow | Response(clicked: bool, text: string)

  /** What `input()` gives on the terminal fallback. */
  datatype TerminalInput = Line(text: string) | EndOfInput

  /** The collaborator calls and UI events of one invocation, in order;
      `CloneFrom` and `LaunchIde` record the attempt, whether or not it raised. */
  datatype Effect =
    | CloneFrom(url: string, dest: string)
    | LaunchIde(command: string)
    | Alert(message: string)
    | Notify(title: string, subtitle: string, message: string)

  datatype FlowEnd = Aborted | Succeeded | Failed

  /** How one invocation ends and the effects it caused, in order. */
  datatype Run = Run(end: FlowEnd, effects: seq<Effect>)

  /** One invocation: the text the prompt was pre-filled with, and its run. */
  datatype Flow = Flow(prefill: string, run: Run)

  /** The outcomes of every collaborator of one invocation: the three sources
      of the detector, the prompt, the terminal, the destination resolver (the
      directory it created, or what it raised), `Repo.clone_from` and the
      process launch of the IDE. */
  datatype Env = Env(
    frontApp: Outcome<string>,
    browserScript: string -> Outcome<string>,
    clipboard: Outcome<string>,
    window: Window,
    terminal: TerminalInput,
    destination: Outcome<string>,
    cloneResult: Outcome<()>,
    ideLaunch: Outcome<()>)

  /** The alert text of tray_clone.py:127: `Error: ` followed by the exception's text. */
  function ErrorMessage(e: string): string {
    "Error: " + e
  }

  /** `IDE_OPEN_COMMAND_TEMPLATE` filled in for `directory`. */
  function IdeOpenCommand(directory: string): string {
    "open -a \"" + IdeAppName + "\" \"" + directory + "\""
  }

  /** The alert text of tray_clone.py:156. */
  function IdeFailureMessage(directory: string, e: string): string {
    "Failed to open " + IdeAppName + " for " + directory + ":\n" + e
  }

  /** `open_in_ide`: the launch is attempted once; if it raises, the failure is
      reported in an alert of its own and nothing propagates to the caller. */
  function OpenInIde(directory: string, launch: Outcome<()>): (effects: seq<Effect>)
    ensures |effects| >= 1 && effects[0] == LaunchIde(IdeOpenCommand(directory))
    ensures launch.Ok? ==> |effects| == 1
    ensures launch.Raised? ==> |effects| == 2 && effects[1] == Alert(IdeFailureMessage(directory, launch.error))
  {
    match launch
    case Ok(_) => [LaunchIde(IdeOpenCommand(directory))]
    case Raised(e) => [LaunchIde(IdeOpenCommand(directory)), Alert(IdeFailureMessage(directory, e))]
  }

  /** tray_clone.py:96-119: the URL to clone, if the invocation gets that far. A
      missing window falls back to the terminal, where end of input or a blank
      line aborts. A window response proceeds when Clone was pressed and the
      field is not empty; the URL is the field's text, stripped. */
  function ConfirmedUrl(window: Window, terminal: TerminalInput): (url: Option<string>)
    ensures window.Response? ==>
      (url.Some? <==> window.clicked && window.text != "")
      && (url.Some? ==> url.value == Strip(window.text))
    ensures window.NoWindow? ==>
      (url.Some? <==> terminal.Line? && Strip(terminal.text) != "")
      && (url.Some? ==> url.value == Strip(terminal.text))
  {
    match window
    case NoWindow =>
      (match terminal
       case EndOfInput => None
       case Line(line) =>
         var input := Strip(line);
         StripIdempotent(line);
         if input == "" then None else Some(Strip(input)))
    case Response(clicked, text) =>
      if clicked && text != "" then Some(Strip(text)) else None
  }

  predicate IsErrorAlert(e: Effect) {
    e.Alert? && ErrorMessage("") <= e.message
  }

  /** tray_clone.py:118-132, once a URL is confirmed: resolve the destination, clone
      into it, open the IDE and notify. The clone is attempted only into a
      resolved directory; the IDE and the notification follow a successful
      clone only; a failure of the resolver or of the clone gives exactly one
      `Error: ...` alert, with nothing after it; an IDE failure gives its own
      alert and the notification still follows. */
  function CloneAndOpen(url: string, destination: Outcome<string>, cloneResult: Outcome<()>,
                        ideLaunch: Outcome<()>): (r: Run)
    ensures r.end != Aborted
    ensures r.end == Succeeded <==> destination.Ok? && cloneResult.Ok?
    ensures destination.Ok? ==> |r.effects| >= 1 && r.effects[0] == CloneFrom(url, destination.value)
    ensures forall i :: 0 <= i < |r.effects| && r.effects[i].CloneFrom? ==>
      i == 0 && destination.Ok? && r.effects[i] == CloneFrom(url, destination.value)
    ensures forall i :: 0 <= i < |r.effects| && (r.effects[i].LaunchIde? || r.effects[i].Notify?) ==>
      r.end == Succeeded && 0 < i && r.effects[0].CloneFrom?
    ensures r.end == Failed ==>
      && |r.effects| >= 1
      && r.effects[|r.effects| - 1] ==
           Alert(ErrorMessage(if destination.Raised? then destination.error else cloneResult.error))
      && forall i :: 0 <= i < |r.effects| - 1 ==> r.effects[i].CloneFrom?
    ensures r.end == Succeeded ==>
      && |r.effects| >= 3
      && r.effects[0] == CloneFrom(url, destination.value)
      && r.effects[1] == LaunchIde(IdeOpenCommand(destination.value))
      && r.effects[|r.effects| - 1] == Notify(NotificationTitle, NotificationMessage, destination.value)
      && r.effects[1..|r.effects| - 1] == OpenInIde(destination.value, ideLaunch)
      && (forall i :: 0 <= i < |r.effects| ==> !IsErrorAlert(r.effects[i]))
      && (ideLaunch.Raised? ==> Alert(IdeFailureMessage(destination.value, ideLaunch.error)) in r.effects)
      && (ideLaunch.Ok? ==> forall i :: 0 <= i < |r.effects| ==> !r.effects[i].Alert?)
  {
    match destination
    case Raised(e) => Run(Failed, [Alert(ErrorMessage(e))])
    case Ok(dest) =>
      match cloneResult
      case Raised(e) => Run(Failed, [CloneFrom(url, dest), Alert(ErrorMessage(e))])
      case Ok(_) =>
        IdeAlertIsNotError(dest, ideLaunch);
        var ide := OpenInIde(dest, ideLaunch);
        var effects := [CloneFrom(url, dest)] + ide + [Notify(NotificationTitle, NotificationMessage, dest)];
        assert ideLaunch.Raised? ==> effects[2] == Alert(IdeFailureMessage(dest, ideLaunch.error));
        assert effects[1..|effects| - 1] == ide;
        assert ideLaunch.Ok? ==> effects == [CloneFrom(url, dest), LaunchIde(IdeOpenCommand(dest)),
                                             Notify(NotificationTitle, NotificationMessage, dest)];
        Run(Succeeded, effects)
  }

  /** The handler. The prompt is pre-filled with the detected URL, or left
      empty; without a confirmed URL the invocation aborts with no effects;
      with one, it runs CloneAndOpen on that URL. */
  function CloneRepo(env: Env): (f: Flow)
    ensures f.prefill == "" || IsGitHubUrl(f.prefill)
    ensures DetectGitHubUrl(env.frontApp, env.browserScript, env.clipboard).Some? ==>
      f.prefill == DetectGitHubUrl(env.frontApp, env.browserScript, env.clipboard).value
    ensures DetectGitHubUrl(env.frontApp, env.browserScript, env.clipboard).None? ==> f.prefill == ""
    ensures f.run.end == Aborted <==> ConfirmedUrl(env.window, env.terminal).None?
    ensures f.run.end == Aborted ==> f.run.effects == []
    ensures ConfirmedUrl(env.window, env.terminal).Some? ==>
      f.run == CloneAndOpen(ConfirmedUrl(env.window, env.terminal).value, env.destination, env.cloneResult, env.ideLaunch)
  {
    var detected := DetectGitHubUrl(env.frontApp, env.browserScript, env.clipboard);
    var prefill := if detected.Some? && detected.value != "" then detected.value else "";
    match ConfirmedUrl(env.window, env.terminal)
    case None => Flow(prefill, Run(Aborted, []))
    case Some(url) => Flow(prefill, CloneAndOpen(url, env.destination, env.cloneResult, env.ideLaunch))
  }

  /** None of the effects of `open_in_ide` is an `Error: ...` alert. */
  lemma IdeAlertIsNotError(directory: string, launch: Outcome<()>)
    ensures forall e :: e in OpenInIde(directory, launch) ==> !IsErrorAlert(e)
  {
    if launch.Raised? {
      var m := IdeFailureMessage(directory, launch.error);
      assert m[0] == 'F' != ErrorMessage("")[0];
    }
  }

  /** The window's Clone button with a field holding only blanks passes the
      check of tray_clone.py:118, which looks at the unstripped text, so the
      flow goes on with an empty URL. */
  lemma WhitespaceOnlyResponseProceeds(env: Env)
    requires env.window.Response? && env.window.clicked
    requires env.window.text != "" && Strip(env.window.text) == ""
    requires env.destination.Ok?
    ensures CloneRepo(env).run.effects[0] == CloneFrom("", env.destination.value)
  {
  }

  /** Two blanks are such a field. */
  lemma StripBlanks()
    ensures Strip("  ") == ""
  {
    var s := "  ";
    assert s[1..] == " " && s[1..][1..] == "";
    assert LStrip(s, IsSpace) == "";
  }

  /** End to end: Safari shows `https://github.com/acme/widgets`; the prompt is
      pre-filled with it; the user accepts; the clone goes to the resolved
      directory, the IDE is opened on it and the notification names it. */
  lemma ExampleSafariEndToEnd(env: Env, dest: string)
    requires env.frontApp == Ok("Safari\n")
    requires env.browserScript("Safari") == Ok("https://github.com/acme/widgets")
    requires env.window == Response(true, "https://github.com/acme/widgets")
    requires env.destination == Ok(dest) && env.cloneResult.Ok? && env.ideLaunch.Ok?
    ensures CloneRepo(env) == Flow("https://github.com/acme/widgets", Run(Succeeded,
      [CloneFrom("https://github.com/acme/widgets", dest), LaunchIde(IdeOpenCommand(dest)),
       Notify(NotificationTitle, NotificationMessage, dest)]))
  {
    var url := "https://github.com/acme/widgets";
    ExampleSafariPreferred(env.browserScript, env.clipboard);
    AcceptedUrl(env.window, env.terminal, url);
    SuccessfulRun(url, dest, env.cloneResult, env.ideLaunch);
  }

  /** End to end: the clone raises; the only effect after the attempt is the
      error alert; there is no IDE launch and no notification. */
  lemma ExampleCloneFails(env: Env, dest: string)
    requires env.window == Response(true, "https://github.com/acme/widgets")
    requires env.destination == Ok(dest) && env.cloneResult == Raised("repository not found")
    ensures CloneRepo(env).run ==
      Run(Failed, [CloneFrom("https://github.com/acme/widgets", dest), Alert("Error: repository not found")])
  {
    var url := "https://github.com/acme/widgets";
    var e := "repository not found";
    assert ErrorMessage(e) == "Error: repository not found";
    AcceptedUrl(env.window, env.terminal, url);
    FailedClone(url, dest, e, env.ideLaunch);
    assert CloneRepo(env).run == CloneAndOpen(url, env.destination, env.cloneResult, env.ideLaunch);
  }

  lemma FailedClone(url: string, dest: string, e: string, ideLaunch: Outcome<()>)
    ensures CloneAndOpen(url, Ok(dest), Raised(e), ideLaunch) == Run(Failed, [CloneFrom(url, dest), Alert(ErrorMessage(e))])
  {
  }

  lemma AcceptedUrl(window: Window, terminal: TerminalInput, url: string)
    requires window == Response(true, "https://github.com/acme/widgets")
    requires url == "https://github.com/acme/widgets"
    ensures ConfirmedUrl(window, terminal) == Some(url)
  {
    StripUnchanged(url);
  }

  lemma SuccessfulRun(url: string, dest: string, cloneResult: Outcome<()>, ideLaunch: Outcome<()>)
    requires cloneResult.Ok? && ideLaunch.Ok?
    ensures CloneAndOpen(url, Ok(dest), cloneResult, ideLaunch) == Run(Succeeded,
      [CloneFrom(url, dest), LaunchIde(IdeOpenCommand(dest)), Notify(NotificationTitle, NotificationMessage, dest)])
  {
  }
}
