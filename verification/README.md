# IE-mode download automation: the decision logic, in Dafny

The repository drives a CSV download from a small Flask site. It uses two scripts:

- `automation/selenium_ie_test.py` runs Edge in Internet Explorer mode through IEDriver.
- `automation/ie_mode_test.py` drives Internet Explorer through its `IWebBrowser2` COM object.

Most of both scripts is UI plumbing: Selenium, pywinauto, COM, `taskkill`. Between those calls sit small deterministic decisions, and this project models those decisions and proves properties of them:

- **Download completion** (`DownloadProbe`). `wait_for_download_complete` polls the saved file and its `.partial` sibling and decides among three outcomes: complete, keep polling (with the `last_size` / `last_mtime` / `stable_since` probe), or time out. One iteration is the pure function `Step`. The loop is a recursion over a finite sequence of `Poll` observations, each carrying that iteration's integer clock reading.
- **Overwrite button** (`ButtonText`). `_norm_button_text` drops whitespace and a few invisible characters from a caption. The Selenium script then classifies the dialog's captions against the normalised targets "はい(&Y)" and "はい(Y)": one match, none, or several. Each failure is logged as a warning.
- **Process tracking** (`ProcessTracker`). This covers:
  - the two PID parsers, one for PowerShell `Get-CimInstance` output and one for `tasklist /FO CSV /NH` output;
  - the before/after snapshot bookkeeping `tracked ∪ (after − before)`;
  - the kill plan of each cleanup.

  The safety property is that a session's teardown never kills a PID seen in the pre-launch snapshot.
- **Selection rules** (`Selection`, `SaveDialog`). These cover:
  - the tie-break among several IE-mode windows;
  - the first anchor whose href names `/download/csv`;
  - the `ReadyState == 4` wait;
  - the two ordered fallback chains of the COM save dialog, for the file name and the Save button;
  - the COM script's exact-title overwrite click;
  - the final classification of the saved file as saved, updated, not updated or not found.

External observations are plain data, parameters of the functions. These include command output strings, file stats, clock readings, window states and whether a UI action worked. Python exceptions that the code catches or raises become constructors of result datatypes.

`common.dfy` holds `Option` and `Pid`. `text.dfy` models the Python `str` operations the parsers use: `isspace`, `strip`, `splitlines`, `split`, `replace(…, '')`, `in`, and ASCII `isdigit`/`int`.

## Model

| member | source | states |
|---|---|---|
| `ButtonText.Norm` | automation/selenium_ie_test.py:499-509 | The normal form is never longer than the caption and holds only kept characters. A kept character is not whitespace, not below U+0020, not U+007F, and not U+200E or U+200F. |
| `ButtonText.NormButtonText` | automation/selenium_ie_test.py:499-509 | The character loop with its two `continue` tests builds exactly the normal form. |
| `ButtonText.NormKeepsExactlyTheKept` | automation/selenium_ie_test.py:499-509 | The normal form is a subsequence of the caption, so the original order is kept. Every kept character appears in it as often as in the caption, and no other character appears at all. |
| `ButtonText.NormFixedPoint` | automation/selenium_ie_test.py:499-509 | A caption is its own normal form exactly when all its characters are kept. |
| `ButtonText.NormIdempotent` | automation/selenium_ie_test.py:499-509 | Normalising a normal form changes nothing. |
| `ButtonText.NormConcat` | automation/selenium_ie_test.py:502-508 | Normalisation works character by character: the normal form of a concatenation is the concatenation of the normal forms. |
| `ButtonText.AmpersandTargetsStayDistinct` | automation/selenium_ie_test.py:511-512 | The `&` mnemonic is kept, so the two targets normalise to "はい(&Y)" and "はい(Y)", which differ. A bare "はい" matches neither. |
| `ButtonText.InvisibleCharactersIgnored` | automation/selenium_ie_test.py:499-517 | Whitespace, control characters and bidi marks inserted anywhere in a caption change neither its normal form nor whether it is affirmative. |
| `ButtonText.Filter` | automation/selenium_ie_test.py:513-517 | The `matched` list holds only accepted captions of the dialog, holds every accepted caption, and is no longer than the caption list. |
| `ButtonText.TwoAcceptedKeptTwice` | automation/selenium_ie_test.py:513-517 | Two accepted positions put at least two entries in `matched`. |
| `ButtonText.KeptTwiceTwoAccepted` | automation/selenium_ie_test.py:513-517 | At least two entries in `matched` come from two distinct accepted positions. |
| `ButtonText.KeptOnceOnlyAccepted` | automation/selenium_ie_test.py:513-520 | A single entry in `matched` is the caption at the only accepted position. |
| `ButtonText.SeveralMatchesIffTwoAffirmative` | automation/selenium_ie_test.py:513-519 | `len(matched) > 1` holds exactly when two distinct buttons carry an affirmative caption. |
| `ButtonText.MatchOverwrite` | automation/selenium_ie_test.py:511-539 | The three-way classification of the captions. "Not found" happens exactly when no caption is affirmative. "Multiple match" happens exactly when two are, and lists every affirmative caption. "Unique" returns the caption at the only affirmative position. |
| `ButtonText.HandleOverwrite` | automation/selenium_ie_test.py:483-542 | A caption is clicked exactly when the dialog showed, the match is unique and the click works. The clicked caption is an affirmative caption of the dialog, and two affirmative captions mean nothing is clicked. No warning is logged exactly when there was no dialog, or the click happened and the dialog closed. The download start moves to the confirmation time only after a click. Nothing is raised. |
| `ButtonText.AmbiguousDialogClicksNothing` | automation/selenium_ie_test.py:536-542 | A dialog offering both "はい(&Y)" and "はい(Y)" preceded by U+200E clicks nothing and logs the multiple-match warning. |
| `DownloadProbe.Step` | automation/selenium_ie_test.py:571-609 | An iteration completes exactly when one of three rules holds: rule 1 (renamed after one second), rule 2 (fresh file and no new partial) or rule 3 (stable). A missing final file leaves the probe untouched. A present file becomes the last observation. A changed size or mtime resets the stability timer. An unchanged one starts the timer or keeps it running. |
| `DownloadProbe.Loop` | automation/selenium_ie_test.py:571-611 | A completion index names one of the polls consumed. The loop expires only at the first poll whose clock reading is at or past the deadline. It runs out of observations only when every poll came before the deadline. How a completion arises is stated by `DownloadProbe.CompletedByStep`, `DownloadProbe.StepCompleteForcesCompletion` and `DownloadProbe.RuleForcesCompletion`. |
| `DownloadProbe.CompletedByStep` | automation/selenium_ie_test.py:571-611 | A completed loop completed because the iteration at that poll returned: the polls before it all ran without completing, and the step at the completing poll, given the probe they left, is `Complete`. |
| `DownloadProbe.StepCompleteForcesCompletion` | automation/selenium_ie_test.py:571-611 | Conversely, if the polls before some poll ran without completing, that poll came before the deadline, and its step returns `Complete` by any of the three rules, the loop completes exactly at that poll. |
| `DownloadProbe.RuleForcesCompletion` | automation/selenium_ie_test.py:593-597 | If rule 1 or rule 2 holds at some poll and neither that poll nor any before it is at or past the deadline, the loop completes at that poll or earlier. |
| `DownloadProbe.ExpiredLoopRanUntilDeadline` | automation/selenium_ie_test.py:571-611 | An expired loop stopped at the first late poll, and the polls before it ran without completing. |
| `DownloadProbe.WaitForDownload` | automation/selenium_ie_test.py:556-616 | The corrected detector reports completion only at a poll where the final file exists, and only when neither that poll nor any before it had reached `enteredAt + timeout`. It times out only at the first poll at or past `enteredAt + timeout`, and only after every earlier poll ran without completing, so it never raises a premature `TimeoutError`. It is undecided only while every poll came before the deadline. On a timeout, the message shows the values read by the last iteration before the deadline poll, and all values are absent when no iteration ran. A completion is the first poll whose iteration returns `Complete` after a prefix that did not. Conversely, such a poll before the deadline, whichever of the three rules fires there, is always the reported completion. A renamed or fresh file seen before the deadline is reported complete at that poll at the latest. |
| `DownloadProbe.WaitAsWritten` | automation/selenium_ie_test.py:568-616 | As written, the detector raises the unbound-name error exactly when the first clock reading is already at or past the deadline. |
| `DownloadProbe.ExpiredWithoutDiagnosticAtOnce` | automation/selenium_ie_test.py:568-616 | The loop ends expired with no iteration's values exactly when the first poll is already past the deadline. |
| `DownloadProbe.ZeroBudgetRaisesUnbound` | automation/selenium_ie_test.py:571-616 | With a zero timeout the source raises the unbound-name error. The corrected detector instead reports a timeout with every diagnostic absent. |
| `DownloadProbe.CorrectedAgreesOtherwise` | automation/selenium_ie_test.py:556-616 | In every other case the corrected and the as-written detectors agree, including on the completing poll and the timeout diagnostic. |
| `DownloadProbe.LoopCompletesOnPresentFile` | automation/selenium_ie_test.py:571-605 | A completion happens on a poll where the final file exists, and every poll up to it was before the deadline. |
| `DownloadProbe.NoFileNeverCompletes` | automation/selenium_ie_test.py:571-611 | If the final file never exists, the loop never completes and never changes the probe, and a poll at or past the deadline makes it expire. |
| `DownloadProbe.NoFileTimesOut` | automation/selenium_ie_test.py:571-616 | The corrected detector, if it never sees the file and reaches the deadline, ends in the timeout error, whose message shows no file mtime and no file size. |
| `DownloadProbe.LoopExpiresWithLastDiagnostic` | automation/selenium_ie_test.py:571-616 | An expired loop stopped at the first poll at or past the deadline. Its timeout message shows the values read by the iteration just before that poll, or the values passed in when that poll was the first. |
| `DownloadProbe.FirstPollCompletes` | automation/selenium_ie_test.py:596-597 | A new final file with no partial file completes on the first poll. |
| `DownloadProbe.StalePartialDoesNotBlock` | automation/selenium_ie_test.py:576-597 | A partial file older than the start does not block completion once the final file is new. |
| `DownloadProbe.StaleFileCompletesAfterOneSecond` | automation/selenium_ie_test.py:593-595 | Rule 1 ignores the mtime: a file older than the start with no partial file completes after one second. |
| `DownloadProbe.StableFileCompletes` | automation/selenium_ie_test.py:600-609 | A file with the same size and mtime on three polls, the last at least `stable_sec` after the second, completes by the third poll even while a new partial file exists. |
| `ProcessTracker.Collect` | automation/selenium_ie_test.py:127-131 | A PID is collected exactly when some line yields it. |
| `ProcessTracker.PowerShellPids` | automation/selenium_ie_test.py:127-132 | The parsed set holds exactly the values of the stripped lines of the stripped output that are all digits. |
| `ProcessTracker.GetIeModeEdgePids` | automation/selenium_ie_test.py:115-135 | A query that raised yields the empty set. Otherwise the line loop yields exactly the parsed set. |
| `ProcessTracker.PowerShellRoundTrip` | automation/selenium_ie_test.py:117-132 | Output listing PIDs one per line, with `\n` or `\r\n` line ends, parses back to exactly those PIDs. |
| `ProcessTracker.PowerShellSkipsNoise` | automation/selenium_ie_test.py:127-132 | The output "7 ␍␊␍␊abc␍␊56" parses to {7, 56}. Padding is stripped, and blank lines and words are skipped. |
| `ProcessTracker.TaskListPids` | automation/ie_mode_test.py:35-40 | The parsed set holds exactly the PIDs read from lines that, once their quotes are removed, have a second comma field made of digits. |
| `ProcessTracker.GetPids` | automation/ie_mode_test.py:29-40 | The line loop of `get_pids` yields exactly that set. |
| `ProcessTracker.TaskListRowRoundTrip` | automation/ie_mode_test.py:36-39 | A row as `tasklist` prints it, `"<image>","<pid>",…`, yields its PID when the image name contains no quote and no comma. |
| `ProcessTracker.LineWithoutCommaHasNoPid` | automation/ie_mode_test.py:36-39 | A line without a comma names no PID. The "no tasks" message is such a line. |
| `ProcessTracker.Track` | automation/selenium_ie_test.py:143-149 | The tracked set only grows, only by PIDs in `after` and not in `before`, and gains every such PID. |
| `ProcessTracker.TrackedPidsWereNew` | automation/ie_mode_test.py:58-64 | However many times tracking runs, every tracked PID was tracked already, or was new in the after-snapshot of some round. |
| `ProcessTracker.KillEach` | automation/ie_mode_test.py:43-50 | One `taskkill` per PID of the set: every PID of the set and nothing else, each exactly once. |
| `ProcessTracker.CleanupTrackedEdges` | automation/selenium_ie_test.py:152-164 | An empty tracked set issues nothing and does not pause. Otherwise the cleanup kills exactly the tracked PIDs, each once, then pauses. |
| `ProcessTracker.CleanupTracked` | automation/ie_mode_test.py:67-73 | The cleanup kills exactly the tracked PIDs, each once, and none when the set is empty. It pauses in every case. |
| `ProcessTracker.KillExistingIeModeEdges` | automation/selenium_ie_test.py:101-112 | The pre-flight cleanup kills exactly the IE-mode Edge PIDs of the query, each once. |
| `ProcessTracker.SessionTracked` | automation/selenium_ie_test.py:620-629 | A session's tracked set never meets the pre-launch snapshot and lies inside the post-launch one. It is their difference when the launch returned, and empty when the launch raised. |
| `ProcessTracker.SessionTeardown` | automation/selenium_ie_test.py:619-670 | In the Selenium session's teardown, no killed PID was in the pre-launch snapshot, and every killed PID was in the post-launch one. After a launch every new PID is killed, each once. When the launch raised, nothing is tracked, so the cleanup kills nothing and does not pause. |
| `ProcessTracker.ComSessionTeardown` | automation/ie_mode_test.py:340-387 | In the COM session's teardown, no killed PID was in the first `tasklist` snapshot, and every killed PID was in the second. After a launch every new PID is killed, each once. When the launch raised, nothing is killed, but unlike the Selenium script the teardown pauses in every case. |
| `ProcessTracker.FailedSnapshotTracksEveryEdge` | automation/selenium_ie_test.py:122-135 | When the pre-launch query raises, every IE-mode Edge seen after the launch is tracked and later killed. |
| `Selection.FirstPreferred` | automation/selenium_ie_test.py:385-392 | The scan stops at the first active-or-focused window. No window before it qualifies. |
| `Selection.Pick` | automation/selenium_ie_test.py:378-394 | No windows give no choice, and a single window is taken. With several, the first active-or-focused window is taken when one exists, and otherwise the first enumerated. |
| `Selection.FindIeWindow` | automation/selenium_ie_test.py:366-396 | A found window is the pick of the first poll that saw any window, before the deadline. "Not found" means a poll reached the deadline with no window seen before. |
| `Selection.FoundWindowWasListed` | automation/selenium_ie_test.py:372-394 | The window returned is one the desktop enumerated. |
| `Selection.FocusedWindowPreferred` | automation/selenium_ie_test.py:385-390 | Of two inactive windows, the one with focus is driven. |
| `Selection.RaisingWindowFallsBackToFirst` | automation/selenium_ie_test.py:386-394 | A window whose `is_active` raises is not preferred even with focus, so the first window is driven. |
| `Selection.FindDownloadLink` | automation/ie_mode_test.py:152-162 | The anchor clicked is the first whose href is present, non-empty and contains "/download/csv". None is clicked exactly when no anchor qualifies. |
| `Selection.CsvPathAnywhere` | automation/ie_mode_test.py:157 | An href containing the path anywhere qualifies. |
| `Selection.WaitForReady` | automation/ie_mode_test.py:83-90 | The wait is ready exactly when some poll sees `ReadyState == 4` within the timeout, with all polls before it within the timeout and still loading. It times out exactly when a poll finds the timeout spent first. |
| `Selection.SpentTimeoutIgnoresPage` | automation/ie_mode_test.py:86-90 | A timeout already spent at the first check raises even when the page is complete. |
| `Selection.FinalVerdict` | automation/selenium_ie_test.py:645-656 | A missing file gives "not found", and a raising `getsize`/`getmtime` fails the run. With no earlier file the result is "saved". With one, it is "updated" exactly when the mtime increased, and "not updated" otherwise. The reported size is the stat's size. |
| `Selection.OverwriteOkIffNewer` | automation/selenium_ie_test.py:648-654 | Overwriting an existing file is reported OK exactly when its mtime strictly increased. |
| `SaveDialog.RunChain` | automation/ie_mode_test.py:232-322 | The chosen strategy works and every earlier one failed. The chain is exhausted, so the step raises, exactly when no strategy works. |
| `SaveDialog.Tried` | automation/ie_mode_test.py:232-322 | The strategies attempted are a prefix of the order ending at the winner, or the whole order when all failed. |
| `SaveDialog.ConfirmOverwrite` | automation/ie_mode_test.py:326-335 | No dialog is seen exactly when the lookup reports none. The confirmation happens exactly when the dialog is shown with exactly one "はい(&Y)" button and the click works. Every other case is swallowed. |
| `SaveDialog.ExactTitleMissesPlainYes` | automation/ie_mode_test.py:328-331 | A dialog whose yes button reads "はい(Y)" is silently not confirmed, though the Selenium script's normalised match accepts that caption. |
| `SaveDialog.ConfirmedOnlyIfRecognised` | automation/ie_mode_test.py:326-335 | For every dialog, a confirmation by the COM script clicks a "はい(&Y)" button the Selenium script's normalised matcher also accepts, so that matcher never reports "not found" on a dialog the COM script confirms. |
| `SaveDialog.HandleSaveDialog` | automation/ie_mode_test.py:228-335 | The file-name chain always runs. The Save chain runs exactly when some file-name strategy works. The overwrite confirmation runs exactly when both chains succeed. |
| `SaveDialog.SuccessIgnoresOverwrite` | automation/ie_mode_test.py:269-335 | The step succeeds exactly when some file-name strategy and some Save strategy work. The overwrite dialog never changes that. |
| `SaveDialog.PrimaryStrategyStopsTheChain` | automation/ie_mode_test.py:234-286 | When the `FileNameControlHost` edit works, no fallback is tried, and likewise for the Save button with automation id "1". |
| `SaveDialog.EnterOnlyAsLastResort` | automation/ie_mode_test.py:312-322 | Enter is pressed exactly when the button id, the titled button and Alt+S all failed. |
| `Text.Strip` | automation/selenium_ie_test.py:128-129 | `strip` leaves no whitespace at either end, never lengthens, and leaves a string unchanged when it has no whitespace at its ends. |
| `Text.StripPadded` | automation/selenium_ie_test.py:128-129 | `strip` removes exactly the leading and trailing whitespace around a core. |
| `Text.SplitLines` | automation/selenium_ie_test.py:128 | No line of `splitlines` contains a line boundary. |
| `Text.SplitLinesJoin` | automation/selenium_ie_test.py:128 | Lines joined with `\n` or `\r\n` split back into the same lines, when the last line is non-empty and no line contains a line break. |
| `Text.Split` | automation/ie_mode_test.py:37 | The fields of `split(',')` contain no comma and join back to the line. There are two or more fields exactly when the line contains a comma. |
| `Text.SplitJoin` | automation/ie_mode_test.py:37 | Comma-free fields joined with commas split back into the same fields. |
| `Text.RemoveAll` | automation/ie_mode_test.py:37 | `replace('"', '')` leaves no quote, never lengthens, and changes nothing in a quote-free line. |
| `Text.RemoveAllConcat` | automation/ie_mode_test.py:37 | Removing quotes works piece by piece over a concatenation. |
| `Text.DecimalRoundTrip` | automation/selenium_ie_test.py:130-131 | `int` of the decimal rendering of a PID is that PID. |
| `Text.ContainsAt` | automation/ie_mode_test.py:157 | Substring containment holds exactly when the substring occurs at some position. |

## Left out

- Selenium/IEDriver, pywinauto, comtypes and keyboard input are not modelled. What the model needs from them enters as data: window lists and states, dialog captions, whether a strategy or a click worked, `ReadyState`, and anchor hrefs.
- The commands (`powershell`, `tasklist`, `taskkill`) are not run. The parsers take their standard output as a string, and the cleanups return the PIDs they would pass to `taskkill /F /PID`.
- Time is modelled as integer milliseconds, with one clock reading per loop iteration. The source reads the float clock several times per iteration, and `time.sleep` only spaces the observations. Float mtimes become integers.
- The file system is not modelled. Existence, `getsize` and `getmtime` of the saved file and of the `.partial` file are observation records, including the cases where a stat raises.
- The worker thread of `create_driver`, the confirm-dialog watcher threads and their `join` timeouts are left out, because they only exist to run blocking native calls concurrently.
- The steps that are pure UI plumbing are left out: login, the download bar, and the confirm dialog.
- The Selenium save dialog's single file-name attempt and single Save attempt are left out. Each raises when its control fails, which is `SaveDialog.RunChain` over a one-element order.
- Logging, console output and log-file handling are left out.
- `app.py`, the Flask site, is not part of this model.
- `Text.IsDigit`: Python's `isdigit` also accepts non-ASCII digits. The model accepts only '0' to '9', so a PID line made of other Unicode digits is not modelled.
- `ButtonText.HandleOverwrite`: the window lookup by class name and title is abstracted to the `shown` flag. The search of `buttons` for the matched caption is folded into `clickWorks`, and a button missing at that point is reported like a failed click.
- `SaveDialog.ConfirmOverwrite`: pywinauto's resolution of `child_window(title=…)` is modelled as "exactly one button with that caption". The regular-expression title match of the fallback strategies is abstracted to the strategy-works predicate.
- `Selection.WaitForReady`: a raising `ie.ReadyState` is not modelled. It would propagate out of `wait_for_ready`.
- `Selection.FindIeWindow`: the `wait("visible")` call on a single window is not modelled, because its exceptions are swallowed and it does not change the choice.
- `ProcessTracker.KillEach`: the iteration order of a Python set is unspecified. The kill list is any ordering of the set, and the contract states membership and distinctness rather than an order.
- `ProcessTracker.GetPids`: in the source, a failing `tasklist` call would raise out of `get_pids`, because there is no `try`. The model takes the output string as given.

Behaviours of the code that a reader might not expect, each modelled as the code has it:

- `_norm_button_text` keeps `&`, so "はい(&Y)" and "はい(Y)" are two distinct targets. The comment at selenium_ie_test.py:505 mentions Unicode categories Cc/Cf. The code drops only whitespace, code points below 32, 127, U+200E and U+200F.
- A failed overwrite confirmation is not fatal in either script. The Selenium script logs it as a warning, and the COM script swallows every exception there.
- Rule 1 of the download detector ignores the file's mtime. A stale file with no partial file completes after one second, and only the final "not updated" warning reveals it.
- A failed pre-launch snapshot in the Selenium script yields the empty set. Every IE-mode Edge seen after the launch is then tracked and killed.
- Neither cleanup clears the tracked set.

## Findings

| source | as written | input that shows it | evidently intended | confidence | as-written member | corrected member |
|---|---|---|---|---|---|---|
| automation/selenium_ie_test.py:571-616 | `file_mtime`, `file_size` and `partial_mtime` are only assigned inside the loop body, but the `TimeoutError` message after the loop reads them | `timeout=0`, or a clock already at or past `end` at the first loop test: the loop body never runs, and building the message raises `UnboundLocalError` | raise `TimeoutError` with the diagnostic values absent | not executed | `DownloadProbe.WaitAsWritten` (exhibited by `DownloadProbe.ZeroBudgetRaisesUnbound`) | `DownloadProbe.WaitForDownload` (agreement elsewhere: `DownloadProbe.CorrectedAgreesOtherwise`) |
