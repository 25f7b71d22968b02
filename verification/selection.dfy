/**
 * The selection rules of both scripts: which IE-mode window the Selenium script
 * drives, which anchor the COM script clicks, how the COM script waits for a
 * page, and how the Selenium script judges the saved file at the end.
 *
 * Every polling loop is a recursion over a finite sequence of observations, one
 * per iteration, each carrying the clock reading (milliseconds) that the loop
 * condition compares. When the observations run out before the loop decides,
 * the result says so.
 */
module Selection {
  import opened Common
  import opened Text

  // ---------------------------------------------------------------- the IE-mode window (Selenium script)

  /** A top-level window whose title matches the IE-mode pattern, with what
      `is_active()` and `has_focus()` return for it (`None` when the call raises). */
  datatype Window = Window(handle: int, active: Option<bool>, focused: Option<bool>)

  /** `w.is_active() or w.has_focus()` inside a `try`: `has_focus` is only asked
      when `is_active` returned false, and a raise from either makes the window
      not preferred. */
  predicate Preferred(w: Window) {
    w.active == Some(true) || (w.active == Some(false) && w.focused == Some(true))
  }

  /** Index of the first preferred window, or `|wins|` when there is none. */
  function FirstPreferred(wins: seq<Window>): (i: nat)
    ensures i <= |wins|
    ensures forall k :: 0 <= k < i ==> !Preferred(wins[k])
    ensures i < |wins| ==> Preferred(wins[i])
  {
    if |wins| == 0 then 0
    else if Preferred(wins[0]) then 0
    else 1 + FirstPreferred(wins[1..])
  }

  /** The choice among the matching windows of one poll: none when there are none,
      the only one when there is one, otherwise the first active or focused one,
      and the first of all when no window is active or focused. */
  function Pick(wins: seq<Window>): (r: Option<nat>)
    ensures r.None? <==> |wins| == 0
    ensures r.Some? ==> r.value < |wins|
    ensures |wins| == 1 ==> r == Some(0)
    ensures (|wins| > 1 && r.Some? && r.value > 0) ==> Preferred(wins[r.value])
    ensures r.Some? ==> forall k :: 0 <= k < r.value ==> !Preferred(wins[k])
    ensures (|wins| > 1 && exists k :: 0 <= k < |wins| && Preferred(wins[k])) ==> Preferred(wins[r.value])
  {
    if |wins| == 0 then None
    else if |wins| == 1 then Some(0)
    else
      var i := FirstPreferred(wins);
      if i < |wins| then Some(i) else Some(0)
  }

  /** One iteration of the search: the clock reading and the windows found, or
      `None` when enumerating the desktop raised (treated as no window). */
  datatype WindowPoll = WindowPoll(now: int, windows: Option<seq<Window>>)

  function Seen(p: WindowPoll): seq<Window> {
    p.windows.GetOr([])
  }

  datatype WindowSearch = FoundWindow(window: Window) | WindowNotFound | StillSearching

  /** Every poll before `k` ran before the deadline and found no window. */
  predicate QuietBefore(polls: seq<WindowPoll>, deadline: int, k: int)
    requires 0 <= k <= |polls|
  {
    forall j :: 0 <= j < k ==> polls[j].now < deadline && |Seen(polls[j])| == 0
  }

  /** `_find_ie_window`: poll until the deadline (the clock at entry plus the
      timeout); the first poll that finds windows decides through `Pick`; at the
      deadline it raises `RuntimeError`, modelled as `WindowNotFound`. */
  function FindIeWindow(deadline: int, polls: seq<WindowPoll>): (r: WindowSearch)
    ensures r.FoundWindow? ==> exists k :: 0 <= k < |polls| && FoundAt(polls, deadline, k, r.window)
    ensures r.WindowNotFound? ==> exists k :: 0 <= k < |polls| && ExpiredAt(polls, deadline, k)
    ensures r.StillSearching? ==> QuietBefore(polls, deadline, |polls|)
  {
    Search(deadline, polls, 0)
  }

  /** Poll `k` is the first that sees a window, and it picks `w`. */
  predicate FoundAt(polls: seq<WindowPoll>, deadline: int, k: int, w: Window)
    requires 0 <= k < |polls|
  {
    QuietBefore(polls, deadline, k) && polls[k].now < deadline
    && Pick(Seen(polls[k])).Some? && Seen(polls[k])[Pick(Seen(polls[k])).value] == w
  }

  /** Poll `k` is the first taken at or after the deadline, and none before it saw a window. */
  predicate ExpiredAt(polls: seq<WindowPoll>, deadline: int, k: int)
    requires 0 <= k < |polls|
  {
    QuietBefore(polls, deadline, k) && polls[k].now >= deadline
  }

  function Search(deadline: int, polls: seq<WindowPoll>, from: nat): (r: WindowSearch)
    requires from <= |polls|
    requires QuietBefore(polls, deadline, from)
    ensures r.FoundWindow? ==> exists k :: from <= k < |polls| && FoundAt(polls, deadline, k, r.window)
    ensures r.WindowNotFound? ==> exists k :: from <= k < |polls| && ExpiredAt(polls, deadline, k)
    ensures r.StillSearching? ==> QuietBefore(polls, deadline, |polls|)
    decreases |polls| - from
  {
    if from == |polls| then StillSearching
    else if polls[from].now >= deadline then
      assert ExpiredAt(polls, deadline, from);
      WindowNotFound
    else
      var wins := Seen(polls[from]);
      match Pick(wins)
      case Some(i) =>
        assert FoundAt(polls, deadline, from, wins[i]);
        FoundWindow(wins[i])
      case None => Search(deadline, polls, from + 1)
  }

  /** Whatever the polls show, the window found is one the desktop listed. */
  lemma FoundWindowWasListed(deadline: int, polls: seq<WindowPoll>)
    ensures FindIeWindow(deadline, polls).FoundWindow? ==>
      exists k :: 0 <= k < |polls| && FindIeWindow(deadline, polls).window in Seen(polls[k])
  {
    var r := FindIeWindow(deadline, polls);
    if r.FoundWindow? {
      var k :| 0 <= k < |polls| && FoundAt(polls, deadline, k, r.window);
      assert r.window in Seen(polls[k]);
    }
  }

  /** Two windows of which only the second has focus: the second is driven. */
  lemma FocusedWindowPreferred(a: Window, b: Window)
    requires a.active == Some(false) && a.focused == Some(false)
    requires b.active == Some(false) && b.focused == Some(true)
    ensures FindIeWindow(15 * MillisPerSecond, [WindowPoll(0, Some([a, b]))]) == FoundWindow(b)
  {
    assert FirstPreferred([a, b][1..]) == 0;
  }

  /** A window whose `is_active` raises is not preferred even if it has focus, so
      with no other candidate the first window is driven. */
  lemma RaisingWindowFallsBackToFirst(a: Window, b: Window)
    requires a.active == Some(false) && a.focused == Some(false)
    requires b.active == None && b.focused == Some(true)
    ensures FindIeWindow(15 * MillisPerSecond, [WindowPoll(0, Some([a, b]))]) == FoundWindow(a)
  {
    assert FirstPreferred([a, b][1..]) == 1 + FirstPreferred([a, b][2..]);
  }

  // ---------------------------------------------------------------- the download link (COM script)

  const CsvPath := "/download/csv"

  /** `href and "/download/csv" in str(href)`: a present, non-empty href that
      contains the CSV download path. */
  predicate IsCsvLink(href: Option<string>) {
    href.Some? && |href.value| > 0 && Contains(href.value, CsvPath)
  }

  /** The anchor loop of `step_click_download_and_confirm`: the index of the first
      anchor whose href names the CSV download, or `None`, in which case the step
      raises `RuntimeError`. */
  method FindDownloadLink(hrefs: seq<Option<string>>) returns (r: Option<nat>)
    ensures r.Some? ==> r.value < |hrefs| && IsCsvLink(hrefs[r.value])
    ensures r.Some? ==> forall k :: 0 <= k < r.value ==> !IsCsvLink(hrefs[k])
    ensures r.None? <==> forall k :: 0 <= k < |hrefs| ==> !IsCsvLink(hrefs[k])
  {
    var i := 0;
    while i < |hrefs|
      invariant 0 <= i <= |hrefs|
      invariant forall k :: 0 <= k < i ==> !IsCsvLink(hrefs[k])
    {
      var href := hrefs[i];
      if href.Some? && |href.value| > 0 && Contains(href.value, CsvPath) {
        return Some(i);
      }
      i := i + 1;
    }
    return None;
  }

  /** Any href containing the path is a CSV link, wherever the path sits in it. */
  lemma CsvPathAnywhere(prefix: string, suffix: string)
    ensures IsCsvLink(Some(prefix + CsvPath + suffix))
  {
    var h := prefix + CsvPath + suffix;
    assert h[|prefix|..|prefix| + |CsvPath|] == CsvPath;
    assert OccursAt(h, CsvPath, |prefix|);
    ContainsAt(h, CsvPath);
  }

  // ---------------------------------------------------------------- page readiness (COM script)

  /** `READYSTATE_COMPLETE`. */
  const ReadyComplete: int := 4

  /** One iteration of `wait_for_ready`: the clock reading and `ie.ReadyState`. */
  datatype ReadyPoll = ReadyPoll(now: int, readyState: int)

  datatype Readiness = Ready | ReadyTimeout | StillLoading

  /** Every poll before `k` ran within the timeout and saw the page still loading. */
  predicate LoadingBefore(polls: seq<ReadyPoll>, start: int, timeout: int, k: int)
    requires 0 <= k <= |polls|
  {
    forall j :: 0 <= j < k ==> polls[j].now - start < timeout && polls[j].readyState != ReadyComplete
  }

  /** Poll `k` is the first to see the page complete, within the timeout. */
  predicate ReadyAt(polls: seq<ReadyPoll>, start: int, timeout: int, k: int)
    requires 0 <= k < |polls|
  {
    LoadingBefore(polls, start, timeout, k) && polls[k].now - start < timeout && polls[k].readyState == ReadyComplete
  }

  /** Poll `k` is the first to find the timeout spent. */
  predicate TimedOutAt(polls: seq<ReadyPoll>, start: int, timeout: int, k: int)
    requires 0 <= k < |polls|
  {
    LoadingBefore(polls, start, timeout, k) && polls[k].now - start >= timeout
  }

  /** `wait_for_ready`: `True` as soon as a poll within the timeout reads
      `ReadyState == 4`; `TimeoutError` (modelled as `ReadyTimeout`) once a poll
      finds the timeout spent. */
  function WaitForReady(start: int, timeout: int, polls: seq<ReadyPoll>): (r: Readiness)
    ensures r.Ready? <==> (exists k :: 0 <= k < |polls| && ReadyAt(polls, start, timeout, k))
    ensures r.ReadyTimeout? <==> (exists k :: 0 <= k < |polls| && TimedOutAt(polls, start, timeout, k))
    ensures r.StillLoading? <==> LoadingBefore(polls, start, timeout, |polls|)
  {
    WaitFrom(start, timeout, polls, 0)
  }

  function WaitFrom(start: int, timeout: int, polls: seq<ReadyPoll>, from: nat): (r: Readiness)
    requires from <= |polls|
    requires LoadingBefore(polls, start, timeout, from)
    ensures r.Ready? <==> (exists k :: from <= k < |polls| && ReadyAt(polls, start, timeout, k))
    ensures r.ReadyTimeout? <==> (exists k :: from <= k < |polls| && TimedOutAt(polls, start, timeout, k))
    ensures r.StillLoading? <==> LoadingBefore(polls, start, timeout, |polls|)
    decreases |polls| - from
  {
    if from == |polls| then StillLoading
    else if polls[from].now - start >= timeout then
      assert !LoadingBefore(polls, start, timeout, |polls|) by {
        assert !(polls[from].now - start < timeout);
      }
      assert TimedOutAt(polls, start, timeout, from);
      ReadyTimeout
    else if polls[from].readyState == ReadyComplete then
      assert !LoadingBefore(polls, start, timeout, |polls|) by {
        assert !(polls[from].readyState != ReadyComplete);
      }
      assert ReadyAt(polls, start, timeout, from);
      Ready
    else
      WaitFrom(start, timeout, polls, from + 1)
  }

  /** A timeout already spent at the first poll raises without consulting the page,
      even a complete one. */
  lemma SpentTimeoutIgnoresPage(start: int, timeout: int, polls: seq<ReadyPoll>)
    requires |polls| > 0 && polls[0].now - start >= timeout
    ensures WaitForReady(start, timeout, polls) == ReadyTimeout
  {
    assert LoadingBefore(polls, start, timeout, 0);
  }

  // ---------------------------------------------------------------- the final file check (Selenium script)

  /** The saved path after the download wait: absent, or present with what
      `getsize` and then `getmtime` did (either can raise). */
  datatype SavedFile = Absent | SizeRaises | MtimeRaises(size: int) | Stat(size: int, mtime: int)

  /** The final report: saved (no file before), updated (mtime moved past the one
      seen before saving), not updated (a warning), not found (a warning), or a
      raised error that fails the run. */
  datatype Verdict = SavedNew(size: int) | Updated(size: int) | NotUpdated(size: int) | NotFound | CheckRaised

  function FinalVerdict(beforeMtime: Option<int>, f: SavedFile): (v: Verdict)
    ensures v.CheckRaised? <==> f.SizeRaises? || f.MtimeRaises?
    ensures v.NotFound? <==> f.Absent?
    ensures v.SavedNew? <==> f.Stat? && beforeMtime.None?
    ensures v.Updated? <==> f.Stat? && beforeMtime.Some? && f.mtime > beforeMtime.value
    ensures v.NotUpdated? <==> f.Stat? && beforeMtime.Some? && f.mtime <= beforeMtime.value
    ensures (v.SavedNew? || v.Updated? || v.NotUpdated?) ==> f.Stat? && v.size == f.size
  {
    match f
    case Absent => NotFound
    case SizeRaises => CheckRaised
    case MtimeRaises(_) => CheckRaised
    case Stat(size, mtime) =>
      match beforeMtime
      case None => SavedNew(size)
      case Some(m) => if mtime > m then Updated(size) else NotUpdated(size)
  }

  /** Only the two warnings and the raised error are not an OK report. */
  predicate IsOk(v: Verdict) {
    v.SavedNew? || v.Updated?
  }

  /** Overwriting leaves an OK report only when the mtime strictly increased: an
      unchanged mtime is reported as not updated. */
  lemma OverwriteOkIffNewer(before: int, size: int, mtime: int)
    ensures IsOk(FinalVerdict(Some(before), Stat(size, mtime))) <==> mtime > before
  {
  }
}
