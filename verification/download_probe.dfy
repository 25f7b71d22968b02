/**
 * The download-completion detector of the Selenium script
 * (`wait_for_download_complete`): a polling loop that watches the saved file
 * and its ".partial" sibling until one of three completion rules fires or the
 * time budget runs out.
 *
 * The file system and the clock are replaced by observations: each loop
 * iteration is one `Poll` carrying the clock reading of that iteration (in
 * milliseconds) and what the two paths looked like.
 */
module DownloadProbe {
  import opened Common

  /** What `getmtime` and then `getsize` yielded for an existing final file:
      both values, only the mtime (`getsize` raised), or nothing (`getmtime` raised). */
  datatype FinalStat = Unreadable | MtimeOnly(mtime: int) | Readable(mtime: int, size: int)

  datatype FinalObs = FinalMissing | FinalPresent(stat: FinalStat)

  /** An existing partial file carries its mtime, or `None` when `getmtime` raised. */
  datatype PartialObs = PartialMissing | PartialPresent(mtime: Option<int>)

  /** One loop iteration: the clock reading and the state of both paths. */
  datatype Poll = Poll(now: int, final: FinalObs, partial: PartialObs)

  /** The stability probe: the last observed size and mtime of the final file, and
      since when they have been unchanged. */
  datatype Probe = Probe(lastSize: Option<int>, lastMtime: Option<int>, stableSince: Option<int>)

  const InitialProbe := Probe(None, None, None)

  /** Rule 1 waits for one second after the download start. */
  const MinElapsed: int := MillisPerSecond

  function FileMtime(f: FinalObs): Option<int> {
    match f
    case FinalPresent(MtimeOnly(m)) => Some(m)
    case FinalPresent(Readable(m, _)) => Some(m)
    case _ => None
  }

  function FileSize(f: FinalObs): Option<int> {
    match f
    case FinalPresent(Readable(_, z)) => Some(z)
    case _ => None
  }

  function PartialMtime(p: PartialObs): Option<int> {
    match p
    case PartialPresent(m) => m
    case PartialMissing => None
  }

  /** `file_is_new`: the final file exists and its mtime is at or after the start,
      or its size or mtime could not be read. */
  predicate FileIsNew(f: FinalObs, start: int) {
    match f
    case FinalMissing => false
    case FinalPresent(Readable(m, _)) => m >= start
    case FinalPresent(_) => true
  }

  /** `partial_is_new`: the partial file exists and its mtime is at or after the
      start, or its mtime could not be read. */
  predicate PartialIsNew(p: PartialObs, start: int) {
    match p
    case PartialMissing => false
    case PartialPresent(None) => true
    case PartialPresent(Some(m)) => m >= start
  }

  /** Rule 1: the final file exists, no partial file exists, and at least a second
      has passed since the download start. */
  predicate RenamedRule(start: int, poll: Poll) {
    poll.final.FinalPresent? && poll.partial.PartialMissing? && poll.now - start >= MinElapsed
  }

  /** Rule 2: the final file is new and no new partial file exists (an old partial
      left over from an earlier run does not count). */
  predicate FreshRule(start: int, poll: Poll) {
    poll.final.FinalPresent? && FileIsNew(poll.final, start) && !PartialIsNew(poll.partial, start)
  }

  /** Rule 3: the final file shows the same size and mtime as at the previous
      iteration and has done so for at least `stableFor` since the timer started. */
  predicate StableRule(stableFor: int, probe: Probe, poll: Poll) {
    && poll.final.FinalPresent?
    && FileSize(poll.final) == probe.lastSize
    && FileMtime(poll.final) == probe.lastMtime
    && probe.stableSince.Some?
    && poll.now - probe.stableSince.value >= stableFor
  }

  datatype StepResult = Complete | Continue(probe: Probe)

  /** One iteration of the polling loop. */
  function Step(start: int, stableFor: int, probe: Probe, poll: Poll): (r: StepResult)
    // completion happens exactly when one of the three rules holds
    ensures r.Complete? <==> RenamedRule(start, poll) || FreshRule(start, poll) || StableRule(stableFor, probe, poll)
    // an absent final file changes nothing
    ensures poll.final.FinalMissing? ==> r == Continue(probe)
    // a present final file is recorded as the last observation
    ensures r.Continue? && poll.final.FinalPresent? ==>
      r.probe.lastSize == FileSize(poll.final) && r.probe.lastMtime == FileMtime(poll.final)
    // any change of size or mtime resets the stability timer
    ensures (r.Continue? && poll.final.FinalPresent? &&
             (FileSize(poll.final) != probe.lastSize || FileMtime(poll.final) != probe.lastMtime)) ==>
      r.probe.stableSince.None?
    // an unchanged file starts the timer now if it was not running, and keeps it otherwise
    ensures (r.Continue? && poll.final.FinalPresent? &&
             FileSize(poll.final) == probe.lastSize && FileMtime(poll.final) == probe.lastMtime) ==>
      r.probe.stableSince == (if probe.stableSince.None? then Some(poll.now) else probe.stableSince)
  {
    var present := poll.final.FinalPresent?;
    if present && poll.partial.PartialMissing? && poll.now - start >= MinElapsed then Complete
    else if present && FileIsNew(poll.final, start) && !PartialIsNew(poll.partial, start) then Complete
    else if present then
      var size, mtime := FileSize(poll.final), FileMtime(poll.final);
      if size == probe.lastSize && mtime == probe.lastMtime then
        if probe.stableSince.None? then Continue(Probe(size, mtime, Some(poll.now)))
        else if poll.now - probe.stableSince.value >= stableFor then Complete
        else Continue(Probe(size, mtime, probe.stableSince))
      else Continue(Probe(size, mtime, None))
    else Continue(probe)
  }

  /** The values the timeout message reports: the final file's mtime and size and the
      partial file's mtime, as read in the last iteration. */
  datatype Diagnostic = Diagnostic(fileMtime: Option<int>, fileSize: Option<int>, partialMtime: Option<int>)

  function DiagnosticOf(poll: Poll): Diagnostic {
    Diagnostic(FileMtime(poll.final), FileSize(poll.final), PartialMtime(poll.partial))
  }

  /** Where the loop stands after the available polls: complete at poll `at`; the
      clock reached the deadline (with the last iteration's diagnostic, absent when no
      iteration ran); or still polling when the observations ran out. */
  datatype LoopEnd = Completed(at: nat) | Expired(last: Option<Diagnostic>) | Polling(probe: Probe)

  /** The `while time.time() < end` loop over the polls, starting at poll index
      `from` (used in the result), with `last` the previous iteration's diagnostic. */
  function Loop(start: int, end: int, stableFor: int, probe: Probe, polls: seq<Poll>, from: nat, last: Option<Diagnostic>): (r: LoopEnd)
    ensures r.Completed? ==> from <= r.at < from + |polls|
    // the loop expires only on the first poll at or past the deadline
    ensures r.Expired? ==> exists k :: 0 <= k < |polls| && DeadlineAt(polls, end, k)
    // it runs out of observations only when every one came before the deadline
    ensures r.Polling? ==> forall k :: 0 <= k < |polls| ==> polls[k].now < end
    decreases |polls|
  {
    if |polls| == 0 then Polling(probe)
    else if !(polls[0].now < end) then
      assert DeadlineAt(polls, end, 0);
      Expired(last)
    else
      match Step(start, stableFor, probe, polls[0])
      case Complete => Completed(from)
      case Continue(p) =>
        var r := Loop(start, end, stableFor, p, polls[1..], from + 1, Some(DiagnosticOf(polls[0])));
        DeadlineShift(polls, end);
        r
  }

  /** Poll `k` is the first whose clock reading is at or past the deadline. */
  predicate DeadlineAt(polls: seq<Poll>, end: int, k: int)
    requires 0 <= k < |polls|
  {
    polls[k].now >= end && forall j :: 0 <= j < k ==> polls[j].now < end
  }

  /** A poll before the deadline in front moves the first late poll back by one. */
  lemma DeadlineShift(polls: seq<Poll>, end: int)
    requires |polls| > 0 && polls[0].now < end
    ensures (exists k :: 0 <= k < |polls| - 1 && DeadlineAt(polls[1..], end, k)) ==>
      exists k :: 0 <= k < |polls| && DeadlineAt(polls, end, k)
  {
    if exists k :: 0 <= k < |polls| - 1 && DeadlineAt(polls[1..], end, k) {
      var k :| 0 <= k < |polls| - 1 && DeadlineAt(polls[1..], end, k);
      assert polls[1..][k] == polls[k + 1];
      assert forall j :: 1 <= j < k + 1 ==> polls[j] == polls[1..][j - 1];
      assert DeadlineAt(polls, end, k + 1);
    }
  }

  /** An expired loop ran every poll before the deadline without completing: the
      same loop over just those polls is still polling. */
  lemma {:induction false} ExpiredLoopRanUntilDeadline(start: int, end: int, stableFor: int, probe: Probe, polls: seq<Poll>, from: nat, last: Option<Diagnostic>)
    ensures Loop(start, end, stableFor, probe, polls, from, last).Expired? ==>
      (exists k :: 0 <= k < |polls| && DeadlineAt(polls, end, k)
                   && Loop(start, end, stableFor, probe, polls[..k], from, last).Polling?)
    decreases |polls|
  {
    if |polls| > 0 && !(polls[0].now < end) {
      assert polls[..0] == [];
      assert DeadlineAt(polls, end, 0);
    } else if |polls| > 0 {
      var s := Step(start, stableFor, probe, polls[0]);
      if s.Continue? {
        var d := Some(DiagnosticOf(polls[0]));
        var tail := polls[1..];
        ExpiredLoopRanUntilDeadline(start, end, stableFor, s.probe, tail, from + 1, d);
        if Loop(start, end, stableFor, probe, polls, from, last).Expired? {
          var k :| 0 <= k < |tail| && DeadlineAt(tail, end, k)
            && Loop(start, end, stableFor, s.probe, tail[..k], from + 1, d).Polling?;
          assert polls[..k + 1][1..] == tail[..k];
          assert polls[..k + 1][0] == polls[0];
          assert Loop(start, end, stableFor, probe, polls[..k + 1], from, last)
              == Loop(start, end, stableFor, s.probe, tail[..k], from + 1, d);
          assert polls[k + 1] == tail[k];
          assert forall j :: 1 <= j < k + 1 ==> polls[j] == tail[j - 1];
          assert DeadlineAt(polls, end, k + 1);
        }
      }
    }
  }

  /** The detector's outcome. */
  datatype Outcome = Done(at: nat) | TimedOut(diag: Diagnostic) | Undecided(probe: Probe)

  /** `wait_for_download_complete(path, start, timeout, stable_sec)` entered at
      clock reading `enteredAt`: the deadline is `enteredAt + timeout`. On timeout
      the diagnostic of the last iteration is reported, all absent when no
      iteration ran (see `WaitAsWritten` for what the source does then). */
  function WaitForDownload(start: int, enteredAt: int, timeout: int, stableFor: int, polls: seq<Poll>): (r: Outcome)
    // a completion is reported only on a poll where the final file exists, and
    // neither that poll nor any before it had reached the deadline
    ensures r.Done? ==> r.at < |polls| && polls[r.at].final.FinalPresent?
    ensures r.Done? ==> forall j :: 0 <= j <= r.at ==> polls[j].now < enteredAt + timeout
    // a timeout comes only at the first poll at or past the deadline, and none of
    // the polls before it completed
    ensures r.TimedOut? ==>
      (exists k :: 0 <= k < |polls| && DeadlineAt(polls, enteredAt + timeout, k)
                   && Loop(start, enteredAt + timeout, stableFor, InitialProbe, polls[..k], 0, None).Polling?)
    // the timeout message shows the values read by the last iteration before the
    // deadline poll, all absent when no iteration ran
    ensures r.TimedOut? ==>
      var end := enteredAt + timeout;
      exists k :: 0 <= k < |polls| && DeadlineAt(polls, end, k)
                  && r.diag == (if k == 0 then Diagnostic(None, None, None) else DiagnosticOf(polls[k - 1]))
    ensures r.Undecided? ==> forall k :: 0 <= k < |polls| ==> polls[k].now < enteredAt + timeout
    // a completion is a rule firing: the polls before it ran without completing,
    // and the step at the completing poll returns `Complete`
    ensures r.Done? ==>
      var before := Loop(start, enteredAt + timeout, stableFor, InitialProbe, polls[..r.at], 0, None);
      before.Polling? && Step(start, stableFor, before.probe, polls[r.at]) == Complete
    // a renamed or fresh file seen before the deadline is reported complete, at
    // that poll at the latest
    ensures forall k :: 0 <= k < |polls| && (RenamedRule(start, polls[k]) || FreshRule(start, polls[k]))
                        && (forall j :: 0 <= j <= k ==> polls[j].now < enteredAt + timeout) ==>
      r.Done? && r.at <= k
    // conversely, the first poll before the deadline whose step returns `Complete`
    // (rule 1, 2 or 3) is the reported completion
    ensures forall k :: 0 <= k < |polls| && polls[k].now < enteredAt + timeout
                        && Loop(start, enteredAt + timeout, stableFor, InitialProbe, polls[..k], 0, None).Polling?
                        && Step(start, stableFor, Loop(start, enteredAt + timeout, stableFor, InitialProbe, polls[..k], 0, None).probe, polls[k]) == Complete ==>
      r == Done(k)
  {
    var end := enteredAt + timeout;
    var e := Loop(start, end, stableFor, InitialProbe, polls, 0, None);
    LoopCompletesOnPresentFile(start, end, stableFor, InitialProbe, polls, 0, None);
    ExpiredLoopRanUntilDeadline(start, end, stableFor, InitialProbe, polls, 0, None);
    CompletedByStep(start, end, stableFor, InitialProbe, polls, 0, None);
    forall k | 0 <= k < |polls| && (RenamedRule(start, polls[k]) || FreshRule(start, polls[k]))
               && (forall j :: 0 <= j <= k ==> polls[j].now < end)
      ensures e.Completed? && e.at <= k
    {
      RuleForcesCompletion(start, end, stableFor, InitialProbe, polls, 0, None, k);
    }
    forall k | 0 <= k < |polls| && polls[k].now < end
               && Loop(start, end, stableFor, InitialProbe, polls[..k], 0, None).Polling?
               && Step(start, stableFor, Loop(start, end, stableFor, InitialProbe, polls[..k], 0, None).probe, polls[k]) == Complete
      ensures e == Completed(k)
    {
      StepCompleteForcesCompletion(start, end, stableFor, InitialProbe, polls, 0, None, k);
    }
    LoopExpiresWithLastDiagnostic(start, end, stableFor, InitialProbe, polls, 0, None);
    match e
    case Completed(k) => Done(k)
    case Expired(d) => TimedOut(d.GetOr(Diagnostic(None, None, None)))
    case Polling(p) => Undecided(p)
  }

  /** Poll `k` and every poll before it came before the deadline, and at poll `k`
      rule 1 or rule 2 holds, neither of which depends on the probe. */
  predicate RuleFiresBy(start: int, end: int, polls: seq<Poll>, k: int)
    requires 0 <= k < |polls|
  {
    && (forall j :: 0 <= j <= k ==> polls[j].now < end)
    && (RenamedRule(start, polls[k]) || FreshRule(start, polls[k]))
  }

  /** A completed loop completed because `Step` returned `Complete` at that poll,
      given the probe left by the polls before it, which all ran without completing. */
  lemma {:induction false} CompletedByStep(start: int, end: int, stableFor: int, probe: Probe, polls: seq<Poll>, from: nat, last: Option<Diagnostic>)
    ensures var r := Loop(start, end, stableFor, probe, polls, from, last);
      r.Completed? ==>
        var before := Loop(start, end, stableFor, probe, polls[..r.at - from], from, last);
        before.Polling? && Step(start, stableFor, before.probe, polls[r.at - from]) == Complete
    decreases |polls|
  {
    var r := Loop(start, end, stableFor, probe, polls, from, last);
    if |polls| > 0 && polls[0].now < end && r.Completed? {
      var s := Step(start, stableFor, probe, polls[0]);
      if s.Complete? {
        assert r.at == from;
        assert polls[..0] == [];
      } else {
        var d := Some(DiagnosticOf(polls[0]));
        var tail := polls[1..];
        CompletedByStep(start, end, stableFor, s.probe, tail, from + 1, d);
        var n := r.at - from;
        assert n >= 1;
        assert polls[..n][0] == polls[0];
        assert polls[..n][1..] == tail[..n - 1];
        assert Loop(start, end, stableFor, probe, polls[..n], from, last)
            == Loop(start, end, stableFor, s.probe, tail[..n - 1], from + 1, d);
        assert polls[n] == tail[n - 1];
      }
    }
  }

  /** A renamed or fresh file observed before the deadline forces completion, at
      that poll at the latest. */
  lemma {:induction false} RuleForcesCompletion(start: int, end: int, stableFor: int, probe: Probe, polls: seq<Poll>, from: nat, last: Option<Diagnostic>, k: nat)
    requires k < |polls|
    requires RuleFiresBy(start, end, polls, k)
    ensures var r := Loop(start, end, stableFor, probe, polls, from, last);
      r.Completed? && r.at <= from + k
    decreases k
  {
    assert polls[0].now < end;
    var s := Step(start, stableFor, probe, polls[0]);
    if s.Continue? {
      assert k > 0;
      var tail := polls[1..];
      assert tail[k - 1] == polls[k];
      assert forall j :: 0 <= j <= k - 1 ==> tail[j] == polls[j + 1];
      assert RuleFiresBy(start, end, tail, k - 1);
      RuleForcesCompletion(start, end, stableFor, s.probe, tail, from + 1, Some(DiagnosticOf(polls[0])), k - 1);
    }
  }

  /** Conversely, a poll before the deadline whose step returns `Complete` after a
      prefix that did not complete is where the loop completes. */
  lemma {:induction false} StepCompleteForcesCompletion(start: int, end: int, stableFor: int, probe: Probe, polls: seq<Poll>, from: nat, last: Option<Diagnostic>, k: nat)
    requires k < |polls| && polls[k].now < end
    requires Loop(start, end, stableFor, probe, polls[..k], from, last).Polling?
    requires Step(start, stableFor, Loop(start, end, stableFor, probe, polls[..k], from, last).probe, polls[k]) == Complete
    ensures Loop(start, end, stableFor, probe, polls, from, last) == Completed(from + k)
    decreases k
  {
    if k == 0 {
      assert polls[..0] == [];
    } else {
      var before := polls[..k];
      assert before[0] == polls[0];
      var s := Step(start, stableFor, probe, polls[0]);
      var tail := polls[1..];
      assert before[1..] == tail[..k - 1];
      assert tail[k - 1] == polls[k];
      StepCompleteForcesCompletion(start, end, stableFor, s.probe, tail, from + 1, Some(DiagnosticOf(polls[0])), k - 1);
    }
  }

  /** What the source's loop ends in: `True`, the `TimeoutError`, or, when no
      iteration ran, the `UnboundLocalError` raised while formatting the timeout
      message (its names `file_mtime`, `file_size` and `partial_mtime` are only
      bound inside the loop body). */
  datatype RaisedAsWritten = Returned(at: nat) | RaisedTimeout(diag: Diagnostic) | RaisedUnbound | StillPolling(probe: Probe)

  /** The detector as written: when the deadline has passed before the first
      iteration, the timeout message cannot be built and a different error escapes. */
  function WaitAsWritten(start: int, enteredAt: int, timeout: int, stableFor: int, polls: seq<Poll>): (r: RaisedAsWritten)
    ensures r.RaisedUnbound? <==> |polls| > 0 && polls[0].now >= enteredAt + timeout
  {
    var end := enteredAt + timeout;
    var e := Loop(start, end, stableFor, InitialProbe, polls, 0, None);
    ExpiredWithoutDiagnosticAtOnce(start, end, stableFor, InitialProbe, polls, 0);
    match e
    case Completed(k) => Returned(k)
    case Expired(None) => RaisedUnbound
    case Expired(Some(d)) => RaisedTimeout(d)
    case Polling(p) => StillPolling(p)
  }

  /** Starting without a diagnostic, the loop expires without one exactly when the
      very first poll is already past the deadline. */
  lemma ExpiredWithoutDiagnosticAtOnce(start: int, end: int, stableFor: int, probe: Probe, polls: seq<Poll>, from: nat)
    ensures Loop(start, end, stableFor, probe, polls, from, None) == Expired(None) <==> |polls| > 0 && polls[0].now >= end
  {
    if |polls| > 0 && polls[0].now < end {
      var s := Step(start, stableFor, probe, polls[0]);
      if s.Continue? {
        LoopExpiresWithLastDiagnostic(start, end, stableFor, s.probe, polls[1..], from + 1, Some(DiagnosticOf(polls[0])));
      }
    }
  }

  /** Finding: with a zero budget the source raises `UnboundLocalError` instead of
      the `TimeoutError` it means to raise; the corrected detector reports a timeout
      with every diagnostic value absent. */
  lemma ZeroBudgetRaisesUnbound(start: int, enteredAt: int, stableFor: int, p: Poll)
    requires p.now >= enteredAt
    ensures WaitAsWritten(start, enteredAt, 0, stableFor, [p]) == RaisedUnbound
    ensures WaitForDownload(start, enteredAt, 0, stableFor, [p]) == TimedOut(Diagnostic(None, None, None))
  {
  }

  /** Apart from that case the corrected detector agrees with the source. */
  lemma CorrectedAgreesOtherwise(start: int, enteredAt: int, timeout: int, stableFor: int, polls: seq<Poll>)
    requires |polls| > 0 ==> polls[0].now < enteredAt + timeout
    ensures var w := WaitAsWritten(start, enteredAt, timeout, stableFor, polls);
            var c := WaitForDownload(start, enteredAt, timeout, stableFor, polls);
      && (w.Returned? <==> c.Done?) && (w.Returned? ==> w.at == c.at)
      && (w.RaisedTimeout? <==> c.TimedOut?) && (w.RaisedTimeout? ==> w.diag == c.diag)
      && (w.StillPolling? <==> c.Undecided?)
  {
  }

  /** A completion is always observed on a poll where the final file exists and
      the deadline has not passed, and every earlier poll was before the deadline. */
  lemma {:induction false} LoopCompletesOnPresentFile(start: int, end: int, stableFor: int, probe: Probe, polls: seq<Poll>, from: nat, last: Option<Diagnostic>)
    ensures var r := Loop(start, end, stableFor, probe, polls, from, last);
      r.Completed? ==>
        && polls[r.at - from].final.FinalPresent?
        && forall j :: 0 <= j <= r.at - from ==> polls[j].now < end
    decreases |polls|
  {
    if |polls| > 0 && polls[0].now < end {
      var s := Step(start, stableFor, probe, polls[0]);
      if s.Continue? {
        LoopCompletesOnPresentFile(start, end, stableFor, s.probe, polls[1..], from + 1, Some(DiagnosticOf(polls[0])));
      }
    }
  }

  /** If the final file never exists, the detector never reports completion, the
      probe never changes, and a poll at or after the deadline ends in a timeout. */
  lemma {:induction false} NoFileNeverCompletes(start: int, end: int, stableFor: int, probe: Probe, polls: seq<Poll>, from: nat, last: Option<Diagnostic>)
    requires forall k :: 0 <= k < |polls| ==> polls[k].final.FinalMissing?
    ensures var r := Loop(start, end, stableFor, probe, polls, from, last);
      && !r.Completed?
      && (r.Polling? ==> r.probe == probe)
      && ((exists k :: 0 <= k < |polls| && polls[k].now >= end) ==> r.Expired?)
    decreases |polls|
  {
    if |polls| > 0 && polls[0].now < end {
      assert Step(start, stableFor, probe, polls[0]) == Continue(probe);
      assert forall k :: 0 <= k < |polls[1..]| ==> polls[1..][k] == polls[k + 1];
      NoFileNeverCompletes(start, end, stableFor, probe, polls[1..], from + 1, Some(DiagnosticOf(polls[0])));
      if exists k :: 0 <= k < |polls| && polls[k].now >= end {
        var k :| 0 <= k < |polls| && polls[k].now >= end;
        assert k > 0;
        assert polls[1..][k - 1].now >= end;
      }
    }
  }

  /** A timeout of the whole detector when the file never appears: the diagnostic
      then shows no final file at all. */
  lemma NoFileTimesOut(start: int, enteredAt: int, timeout: int, stableFor: int, polls: seq<Poll>)
    requires forall k :: 0 <= k < |polls| ==> polls[k].final.FinalMissing?
    requires exists k :: 0 <= k < |polls| && polls[k].now >= enteredAt + timeout
    ensures var r := WaitForDownload(start, enteredAt, timeout, stableFor, polls);
      r.TimedOut? && r.diag.fileMtime.None? && r.diag.fileSize.None?
  {
    NoFileNeverCompletes(start, enteredAt + timeout, stableFor, InitialProbe, polls, 0, None);
    LoopExpiresWithLastDiagnostic(start, enteredAt + timeout, stableFor, InitialProbe, polls, 0, None);
  }

  /** The diagnostic of an expired loop is that of the last iteration before the
      deadline poll, or the one passed in when no iteration ran. */
  lemma {:induction false} LoopExpiresWithLastDiagnostic(start: int, end: int, stableFor: int, probe: Probe, polls: seq<Poll>, from: nat, last: Option<Diagnostic>)
    ensures var r := Loop(start, end, stableFor, probe, polls, from, last);
      r.Expired? ==>
        (exists k :: 0 <= k < |polls| && DeadlineAt(polls, end, k)
                     && r.last == (if k == 0 then last else Some(DiagnosticOf(polls[k - 1]))))
    decreases |polls|
  {
    if |polls| > 0 && polls[0].now >= end {
      assert DeadlineAt(polls, end, 0);
    } else if |polls| > 0 {
      var s := Step(start, stableFor, probe, polls[0]);
      if s.Continue? {
        var d := Some(DiagnosticOf(polls[0]));
        var tail := polls[1..];
        LoopExpiresWithLastDiagnostic(start, end, stableFor, s.probe, tail, from + 1, d);
        var r := Loop(start, end, stableFor, s.probe, tail, from + 1, d);
        if r.Expired? {
          var k :| 0 <= k < |tail| && DeadlineAt(tail, end, k)
            && r.last == (if k == 0 then d else Some(DiagnosticOf(tail[k - 1])));
          assert polls[k + 1] == tail[k];
          assert forall j :: 1 <= j < k + 1 ==> polls[j] == tail[j - 1];
          assert DeadlineAt(polls, end, k + 1);
          assert k > 0 ==> tail[k - 1] == polls[k];
        }
      }
    }
  }

  /** A new final file with no partial file completes on the very first poll. */
  lemma FirstPollCompletes(start: int, enteredAt: int, timeout: int, stableFor: int, polls: seq<Poll>)
    requires |polls| > 0 && polls[0].now < enteredAt + timeout
    requires FileIsNew(polls[0].final, start) && polls[0].partial.PartialMissing?
    ensures WaitForDownload(start, enteredAt, timeout, stableFor, polls) == Done(0)
  {
  }

  /** A partial file older than the start does not block completion once the final
      file is new. */
  lemma StalePartialDoesNotBlock(start: int, stableFor: int, probe: Probe, size: int, fileMtime: int, partialMtime: int, now: int)
    requires fileMtime >= start && partialMtime < start
    ensures Step(start, stableFor, probe, Poll(now, FinalPresent(Readable(fileMtime, size)), PartialPresent(Some(partialMtime)))) == Complete
  {
  }

  /** An existing final file with no partial completes after one second even when
      its mtime is older than the start: rule 1 does not look at the mtime. */
  lemma StaleFileCompletesAfterOneSecond(start: int, stableFor: int, probe: Probe, size: int, fileMtime: int, now: int)
    requires fileMtime < start && now - start >= MinElapsed
    ensures Step(start, stableFor, probe, Poll(now, FinalPresent(Readable(fileMtime, size)), PartialMissing)) == Complete
  {
  }

  /** The stability fallback: a file that keeps the same size and mtime on three
      polls, the last at least `stableFor` after the second, completes by the third
      poll even while a new partial file keeps blocking rules 1 and 2. */
  lemma {:induction false} StableFileCompletes(start: int, end: int, stableFor: int, size: int, mtime: int, a: Poll, b: Poll, c: Poll)
    requires a.now < end && b.now < end && c.now < end
    requires c.now - b.now >= stableFor
    requires a.final == b.final == c.final == FinalPresent(Readable(mtime, size))
    ensures Loop(start, end, stableFor, InitialProbe, [a, b, c], 0, None).Completed?
  {
    var polls := [a, b, c];
    var s0 := Step(start, stableFor, InitialProbe, a);
    if s0.Continue? {
      assert s0.probe == Probe(Some(size), Some(mtime), None);
      assert polls[1..] == [b, c];
      var s1 := Step(start, stableFor, s0.probe, b);
      if s1.Continue? {
        assert s1.probe == Probe(Some(size), Some(mtime), Some(b.now));
        assert StableRule(stableFor, s1.probe, c);
        var d0, d1 := Some(DiagnosticOf(a)), Some(DiagnosticOf(b));
        assert Loop(start, end, stableFor, s1.probe, [c], 2, d1) == Completed(2);
        assert [b, c][1..] == [c];
        assert Loop(start, end, stableFor, s0.probe, [b, c], 1, d0) == Completed(2);
      }
    }
  }
}
