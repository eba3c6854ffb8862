# CloneRepo tray app: a verified model of its decision logic

`tray_clone.py` is a macOS menu-bar app with one menu item, "Clone Repo...".
When it is clicked, the app looks for a GitHub repository URL, first in the
frontmost browser and then on the clipboard. It pre-fills a prompt with that
URL. When the user confirms, it clones the repository into a fresh directory
under `~/Desktop/playground`, opens the directory in the Cursor IDE and posts a
notification.

This project models the logic inside that glue and proves what it does:

- `GitHubUrl`: the URL pattern `https?://github\.com/[^/]+/[^/\s]+` under
  `re.match`. It is written as a scanner (`IsGitHubUrl`) and, independently, as
  the decomposition the regular expression describes (`PatternMatches`). A
  lemma proves the two agree.
- `Destination`: the directory name derived from a URL, and the linear probe
  `name`, `name-1`, `name-2`, ... over a filesystem. The filesystem is the
  finite set of paths that exist. `mkdir` adds the chosen path to that set.
  The probe is a `while` loop in a method, and the filesystem is a class whose
  method updates the set.
- `Browser`: choosing the first key of the ordered browser-script table that
  occurs in the foreground application's name. This is a `for` loop with an
  early return.
- `Detection`: the decision order of `detect_github_url` over abstract
  collaborator outcomes. Each outcome is a string or a raised exception.
- `CloneFlow`: `clone_repo` and `open_in_ide` as a function. It takes the
  outcomes of the prompt window, the terminal, the destination resolver, the
  clone and the IDE launch. It returns the prompt's pre-filled text, how the
  invocation ends and the effects it causes, in order: clone, IDE launch,
  alert and notification.
- `Text`: the Python string operations the code relies on, each with its
  meaning as a contract. These are `str.isspace`, `strip`, `rstrip`, `split`,
  substring `in` and the decimal rendering of an `int`. `Wrappers` holds
  `Option` and `Outcome`.

Behaviour worth noting:

- The name derivation uses `rstrip("/")`. This removes every trailing `/`, not
  just one.
- The prompt check on line 118 tests the unstripped field text. A clicked
  response whose field is non-empty but holds only whitespace therefore goes on to clone the empty URL
  (`CloneFlow.WhitespaceOnlyResponseProceeds`).

The model takes as parameters what the program reads from its surroundings:
the home directory (`Path.home()`), the foreground application's name, the
browser scripts' outputs, the clipboard, the prompt's response, the terminal
line, and the outcomes of the clone and of the IDE launch.

## Model

| member | source | states |
|---|---|---|
| GitHubUrl.SchemeEnd | tray_clone.py:16 | the literal part `https?://github\.com/` is recognised exactly when the text starts with the `http` or the `https` form; the two are exclusive |
| GitHubUrl.IsRepoChar | tray_clone.py:16 | the class `[^/\s]`: any character other than `/` and the `str.isspace` characters |
| GitHubUrl.IsGitHubUrl | tray_clone.py:16 | the scanner for `pattern.match`: a match starts with the literal part and is at least as long as `http://github.com/o/r` |
| GitHubUrl.MatchesAt | tray_clone.py:16 | one decomposition of a match (literal part, owner `[^/]+`, `/`, first character of `[^/\s]+`); the decomposition is unique, the literal part ending where SchemeEnd says and the owner at the first `/` |
| GitHubUrl.PatternMatches | tray_clone.py:16 | the regular expression matches a prefix of the text: some decomposition exists, so the text is at least as long as the shortest match |
| GitHubUrl.IsGitHubUrlCorrect | tray_clone.py:16 | the scanner holds iff the text starts with `http`, an optional `s`, `://github.com/`, a non-empty owner without `/`, a `/` and a character that is neither `/` nor whitespace |
| GitHubUrl.MatchIgnoresSuffix | tray_clone.py:189 | matching is anchored only at the start: appending anything to a matching text keeps it matching |
| GitHubUrl.OwnerThenRepo | tray_clone.py:16 | for a non-empty owner without `/`, `scheme://github.com/owner/rest` matches iff `rest` starts with a character allowed in `[^/\s]` |
| GitHubUrl.EmptyOwner | tray_clone.py:16 | an empty owner segment never matches |
| GitHubUrl.OwnerOnly | tray_clone.py:16 | a URL with no `/` after the owner never matches |
| GitHubUrl.ExampleHttps | tray_clone.py:16 | `https://github.com/acme/widgets` matches |
| GitHubUrl.ExampleHttpWithGitSuffix | tray_clone.py:16 | `http://github.com/acme/widgets.git` matches |
| GitHubUrl.ExampleSpaceInOwner | tray_clone.py:16 | whitespace is accepted inside the owner segment |
| GitHubUrl.ExampleSpaceBeforeRepo | tray_clone.py:16 | whitespace at the start of the repository segment is rejected |
| GitHubUrl.ExampleMissingSegments | tray_clone.py:16 | a URL without a repository segment, or with an empty owner, is rejected |
| GitHubUrl.ExampleOtherHosts | tray_clone.py:16 | another host, and a text that is not a URL, are rejected |
| Text.IsSpace | tray_clone.py:107-201 | the characters for which `str.isspace()` holds, which are also what `\s` matches on `str`: U+0009-U+000D, U+001C-U+0020, U+0085, U+00A0, U+1680, U+2000-U+200A, U+2028, U+2029, U+202F, U+205F and U+3000; it decides every `strip()` and the `\s` of the pattern on line 16 |
| Text.Strip | tray_clone.py:164 | the stripped text neither starts nor ends with whitespace |
| Text.StripSpec | tray_clone.py:164 | the stripped text is a contiguous slice of the input, and everything outside the slice is whitespace |
| Text.StripIdempotent | tray_clone.py:107-119 | stripping twice, as the terminal path does on lines 107 and 119, is stripping once |
| Text.StripUnchanged | tray_clone.py:119 | a text with no whitespace at either end is its own strip |
| Text.RStrip | tray_clone.py:135 | `rstrip` keeps a prefix, every removed character is a selected one, and the last kept character is not |
| Text.RStripUnique | tray_clone.py:135 | that contract determines `rstrip`'s result |
| Text.RStripLast | tray_clone.py:135 | one trailing selected character makes no difference to `rstrip` |
| Text.LStrip | tray_clone.py:164 | `lstrip` keeps a suffix, every removed character is a selected one, and the first kept character is not |
| Text.Split | tray_clone.py:135 | `split` gives at least one piece, and no piece contains the separator |
| Text.SplitJoin | tray_clone.py:135 | joining the pieces of `split` with the separator gives back the text |
| Text.LastPiece | tray_clone.py:135 | the last piece has no separator, ends the text, and is the whole text or follows a separator |
| Text.LastPieceOfSplit | tray_clone.py:135 | that piece is `split(sep)[-1]` |
| Text.LastPieceUnique | tray_clone.py:135 | the suffix described by LastPiece's contract is unique |
| Text.Contains | tray_clone.py:168 | substring `in` holds iff the needle occurs at some position of the text |
| Text.DecimalString | tray_clone.py:143 | `f"{counter}"` is a non-empty run of digits, with at least two digits from 10 on |
| Text.DecimalStringInjective | tray_clone.py:143 | different counters render differently |
| Destination.DropGitSuffix | tray_clone.py:136-137 | exactly one trailing `.git` is removed when present; any other name is unchanged |
| Destination.DestinationName | tray_clone.py:135-137 | the derived name never contains `/` |
| Destination.DestinationNameIsExpression | tray_clone.py:135-137 | the name is `rstrip("/")`, then `split("/")[-1]`, then one `.git` dropped |
| Destination.DestinationNameSegment | tray_clone.py:135-137 | with every trailing `/` removed, the name, plus the `.git` it lost if any, is what follows the last remaining `/`, or the whole URL when no `/` is left |
| Destination.TrailingSlashIgnored | tray_clone.py:135 | a trailing `/` does not change the name |
| Destination.NameOfLastSegment | tray_clone.py:135-137 | a URL ending in a non-empty segment without `/` is named after that segment, less one `.git` |
| Destination.ExampleNameDropsGit | tray_clone.py:136-137 | `.../r.git` gives `r` |
| Destination.ExampleNameDropsOneGit | tray_clone.py:136-137 | `.../r.git.git` gives `r.git` |
| Destination.ExampleNameKeepsPlainSegment | tray_clone.py:135 | `.../acme/widgets` gives `widgets` |
| Destination.ExampleNameDropsAllTrailingSlashes | tray_clone.py:135 | `.../widgets//` gives `widgets`: every trailing slash is removed |
| Destination.ExampleNameEmpty | tray_clone.py:136-137 | `.git` gives the empty name |
| Destination.PathJoin | tray_clone.py:139 | pathlib's `/` with a component without `/` (all the program joins) extends the base path, and gives the base itself exactly when the component is empty or `.` |
| Destination.DefaultCloneBaseDir | tray_clone.py:12 | `Path.home() / "Desktop" / "playground"` is `home/Desktop/playground` |
| Destination.Candidate | tray_clone.py:139-143 | the first path tried is `base / name`; the `k`-th later one is `base/name-k`, with `k` in decimal, never collapsed into `base` |
| Destination.CandidatesDistinct | tray_clone.py:139-143 | the probe never tries the same path twice |
| Destination.LeastFreeUnique | tray_clone.py:142 | at most one slot is the least free one |
| Destination.TriedShrinks | tray_clone.py:142-144 | each taken candidate the loop passes leaves fewer existing paths untried, so the loop ends |
| Destination.FindFreeSlot | tray_clone.py:139-144 | the loop ends; it returns `base/name` if that is free, and otherwise the first free `base/name-k`; every earlier candidate exists and the result does not |
| Destination.FileSystem.constructor | tray_clone.py:12 | the filesystem holds the given paths and the clone base is `home/Desktop/playground` |
| Destination.FileSystem.GetDestinationDirectory | tray_clone.py:134-146 | the result is the least free candidate for the URL's name; it was absent before the call and is the one path added by `mkdir` |
| Destination.ResolveTwice | tray_clone.py:139-146 | two successive resolutions of the same URL give distinct new directories, and both then exist |
| Destination.NextCandidate | tray_clone.py:142-144 | after the first `n` candidates are taken, a probe that finds the `n`-th one free takes exactly it |
| Destination.ThreeProbes | tray_clone.py:139-146 | three probes in a row, each seeing the previous ones' directories, take the first three candidates |
| Destination.ProbeThrice | tray_clone.py:139-146 | three resolutions of one URL give `name`, `name-1` and `name-2`, and add exactly those paths |
| Destination.ExampleWidgetsName | tray_clone.py:135-137 | `https://github.com/acme/widgets.git` gives `widgets` |
| Destination.ExampleWidgetsPaths | tray_clone.py:12 | the clone base for `/Users/u` and the first candidate under it, as strings |
| Destination.ExampleWidgetsSuffixedPaths | tray_clone.py:143 | the second and third candidates for `widgets` are `.../widgets-1` and `.../widgets-2` |
| Destination.ExampleProbe | tray_clone.py:139-146 | three resolutions on an empty filesystem give `.../widgets`, `.../widgets-1` and `.../widgets-2` |
| Browser.BrowserNamesKeys | tray_clone.py:38-68 | the table has seven distinct non-empty keys, `zen` tried first and `Microsoft Edge` last |
| Browser.FirstContained | tray_clone.py:167-170 | the first name in order contained in the application's name; whatever it returns is one of the names and occurs in the application's name |
| Browser.FirstContainedSpec | tray_clone.py:167-173 | no key is found iff no key occurs in the name; otherwise the first key in table order that occurs is returned |
| Browser.ActiveBrowser | tray_clone.py:160-176 | a collaborator that raised gives no browser; any browser given is a table key contained in the stripped name |
| Browser.ActiveBrowserIsKey | tray_clone.py:183 | any browser returned is a non-empty key of the table, so the detector's guard always holds for it |
| Browser.GetActiveBrowser | tray_clone.py:160-176 | the loop returns the first table key contained in the stripped name, and nothing when the collaborator raised or no key occurs |
| Browser.NotContainedChar | tray_clone.py:168 | a key containing a character absent from the name does not occur in it |
| Browser.LacksCharOf | tray_clone.py:168 | some character of the key is absent from the name, so `key in name` cannot hold |
| Browser.NoKeyContained | tray_clone.py:38-68 | a name that lacks some character of every key of the table selects no browser |
| Browser.NoBrowserFor | tray_clone.py:164-173 | an answer whose stripped form lacks some character of every key selects no browser |
| Browser.LacksOneCharOfEachKey | tray_clone.py:38-68 | a name without `z`, `G`, `S`, `A`, `x`, `B` and `M` lacks some character of every key |
| Browser.StripNewline | tray_clone.py:164 | the newline `osascript` prints is stripped away |
| Browser.SafariFirst | tray_clone.py:167-170 | `Safari` selects Safari, after `zen` and `Google Chrome` fail |
| Browser.ExampleSafari | tray_clone.py:160-170 | the answer `Safari\n` selects Safari |
| Browser.ExampleNoBrowser | tray_clone.py:172-176 | `Finder`, or a collaborator that raised, selects no browser |
| Detection.MatchingText | tray_clone.py:188-191 | a collaborator's text is kept iff its stripped form matches, and then it is that stripped form |
| Detection.BrowserMatches | tray_clone.py:182-191 | the browser step succeeds: a browser is selected, its script answers, and the stripped answer matches the pattern |
| Detection.FromBrowser | tray_clone.py:182-197 | the browser step yields a URL exactly when a browser is selected, its script answers, and the stripped answer matches; the URL is that stripped answer |
| Detection.FromClipboard | tray_clone.py:199-212 | the clipboard step yields a URL exactly when the clipboard is read and its stripped text matches; the URL is that stripped text |
| Detection.DetectGitHubUrl | tray_clone.py:178-215 | any URL returned matches the pattern and is the stripped output of the browser's script or of the clipboard |
| Detection.BrowserPreferred | tray_clone.py:182-191 | a matching browser URL is returned whatever the clipboard holds |
| Detection.ClipboardFallback | tray_clone.py:193-206 | when the browser step gives nothing, the result is the clipboard step's: its stripped text if that matches |
| Detection.NothingDetected | tray_clone.py:178-215 | nothing is detected iff neither source yields a matching text |
| Detection.ExampleNothingDetected | tray_clone.py:214-215 | `Finder` in front and `hello` on the clipboard detect nothing |
| Detection.ExampleSafariPreferred | tray_clone.py:182-191 | Safari showing a repository page wins over any clipboard |
| CloneFlow.ErrorMessage | tray_clone.py:127 | the alert text `Error: ` followed by the exception's text (its definition, the f-string of line 127) |
| CloneFlow.IdeOpenCommand | tray_clone.py:14 | the template `open -a "{app_name}" "{directory}"` filled in with Cursor and the directory |
| CloneFlow.IdeFailureMessage | tray_clone.py:156 | the alert text `Failed to open Cursor for <directory>:` and the exception's text on the next line |
| CloneFlow.OpenInIde | tray_clone.py:148-158 | the launch command comes first; a launch that raises adds only its own alert |
| CloneFlow.ConfirmedUrl | tray_clone.py:104-119 | with no window, the flow proceeds iff a line was read and is non-blank; with a window, iff Clone was pressed and the field is non-empty; the URL is the stripped text |
| CloneFlow.CloneAndOpen | tray_clone.py:118-132 | the clone is attempted exactly once, first, whenever the destination resolves; a failing resolver gives the one `Error: ...` alert alone, a failing clone the attempt and then that alert; a successful clone gives the attempt, exactly the effects of `open_in_ide`, and the notification naming the directory, with no `Error: ...` alert; the IDE launch and the notification follow a successful clone only |
| CloneFlow.CloneRepo | tray_clone.py:76-132 | the prompt is pre-filled with the detected URL, or with `""` when nothing is detected (`detected_url or ""`); without a confirmed URL the invocation aborts with no effects; with one, it runs CloneAndOpen on it |
| CloneFlow.IdeAlertIsNotError | tray_clone.py:156 | the IDE alert is never an `Error: ...` alert |
| CloneFlow.AcceptedUrl | tray_clone.py:118-119 | Clone pressed on the field `https://github.com/acme/widgets` confirms that URL unchanged |
| CloneFlow.FailedClone | tray_clone.py:121-132 | for every URL, directory and IDE outcome, a clone that raises gives exactly the attempt followed by `Error: <exception>` |
| CloneFlow.SuccessfulRun | tray_clone.py:121-125 | for every URL and directory, a successful clone and IDE launch give exactly the clone, the launch command and the notification, in that order |
| CloneFlow.WhitespaceOnlyResponseProceeds | tray_clone.py:118-119 | Clone pressed on any non-empty field that holds only whitespace (its strip is empty) clones the empty URL |
| CloneFlow.StripBlanks | tray_clone.py:119 | a field of two blanks strips to the empty text, so such a field exists |
| CloneFlow.ExampleSafariEndToEnd | tray_clone.py:76-132 | Safari's repository page is pre-filled, accepted, cloned, opened and notified |
| CloneFlow.ExampleCloneFails | tray_clone.py:121-132 | a clone that raises yields the attempt and the `Error: ...` alert only |

## Left out

- The `rumps` tray app, menu registration and the `Window`, `notification` and `alert` APIs. They appear only as the `Window` input and as effects.
- The `subprocess` calls to `osascript` and `pbpaste`, and the AppleScript bodies, including the three-tier `zen` fallback. Each call is a given outcome: a string or an exception.
- The activation script run before the prompt (lines 88-94). Its outcome changes nothing that the flow does.
- `Repo.clone_from`. It is an ok/exception outcome.
- PathJoin: models pathlib's `/` only for components without `/`; an absolute component, one with a trailing `/` or one such as `./` is not modelled, as the program joins none.
- `time.sleep`, `print` logging, `main` and its fatal-error wrapper: these are timing and process plumbing. `Path.home()` is a parameter, assumed to be a normalised path without a trailing `/`.
- Filesystem semantics beyond a set of existing paths: permissions, races, and the parent directories that `mkdir(parents=True)` creates. `GetDestinationDirectory` itself never raises. The clone flow takes the resolver's outcome, which may be an exception, as an input.
- `rumps.notification` or `rumps.alert` raising. They are treated as not raising. An exception from the notification would produce an `Error: ...` alert after the IDE launch.
- The IDE launch is fire-and-forget (`Popen`). Only an exception raised while starting it is modelled.
- An `input()` interrupted by anything other than end of input.
- A general regular-expression engine. Only this one pattern is encoded.
