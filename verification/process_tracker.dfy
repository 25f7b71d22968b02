/**
 * Process tracking of both scripts: reading PID lists out of command output,
 * recording the browser processes that appeared across the launch (before/after
 * snapshots), and the kill plan of the cleanup.
 *
 * The commands themselves (PowerShell `Get-CimInstance`, `tasklist`, `taskkill`)
 * are not modelled: the parsers receive their standard output as a string, and
 * the cleanup returns the list of PIDs it would pass to `taskkill /F /PID`.
 */
module ProcessTracker {
  import opened Common
  import opened Text

  // ---------------------------------------------------------------- collecting PIDs line by line

  /** The PIDs that `pidOf` reads off the lines, as the parsing loops accumulate them. */
  function Collect(lines: seq<string>, pidOf: string -> Option<Pid>): (pids: set<Pid>)
    ensures forall p :: p in pids <==> exists k :: 0 <= k < |lines| && pidOf(lines[k]) == Some(p)
  {
    if |lines| == 0 then {}
    else
      var init := Collect(lines[..|lines| - 1], pidOf);
      assert forall k :: 0 <= k < |lines| - 1 ==> lines[..|lines| - 1][k] == lines[k];
      match pidOf(lines[|lines| - 1])
      case Some(p) => init + {p}
      case None => init
  }

  /** Collecting one more line adds that line's PID, if it has one. */
  lemma CollectSnoc(lines: seq<string>, i: nat, pidOf: string -> Option<Pid>)
    requires i < |lines|
    ensures Collect(lines[..i + 1], pidOf) ==
      Collect(lines[..i], pidOf) + (if pidOf(lines[i]).Some? then {pidOf(lines[i]).value} else {})
  {
    assert lines[..i + 1][..i] == lines[..i];
  }

  // ---------------------------------------------------------------- PowerShell output (Selenium script)

  /** The PID on one line of the PowerShell query output: the stripped line, when it
      consists of digits. */
  function PowerShellLinePid(line: string): Option<Pid> {
    var t := Strip(line);
    if IsDigits(t) then Some(DecimalValue(t)) else None
  }

  /** The PIDs named by the PowerShell query output: one per line of the stripped
      output that carries one. */
  function PowerShellPids(stdout: string): (pids: set<Pid>)
    ensures forall p :: p in pids <==>
      exists l :: l in SplitLines(Strip(stdout)) && IsDigits(Strip(l)) && DecimalValue(Strip(l)) == p
  {
    Collect(SplitLines(Strip(stdout)), PowerShellLinePid)
  }

  /** A snapshot of the IE-mode Edge processes: the parsed output, or the empty set
      when running the query raised. */
  function SnapshotPids(stdout: Option<string>): set<Pid> {
    match stdout
    case Some(out) => PowerShellPids(out)
    case None => {}
  }

  /** `_get_ie_mode_edge_pids`: the line loop over the query output. */
  method GetIeModeEdgePids(stdout: Option<string>) returns (pids: set<Pid>)
    ensures stdout.None? ==> pids == {}
    ensures stdout.Some? ==> pids == PowerShellPids(stdout.value)
  {
    pids := {};
    if stdout.None? {
      return;
    }
    var lines := SplitLines(Strip(stdout.value));
    var i := 0;
    while i < |lines|
      invariant 0 <= i <= |lines|
      invariant pids == Collect(lines[..i], PowerShellLinePid)
    {
      var line := Strip(lines[i]);
      CollectSnoc(lines, i, PowerShellLinePid);
      if IsDigits(line) {
        pids := pids + {DecimalValue(line)};
      }
      i := i + 1;
    }
    assert lines[..|lines|] == lines;
  }

  /** The decimal renderings of `pids`, one per line. */
  function RenderPids(pids: seq<Pid>): (lines: seq<string>)
    ensures |lines| == |pids|
    ensures forall k :: 0 <= k < |pids| ==> lines[k] == Decimal(pids[k])
  {
    if |pids| == 0 then [] else [Decimal(pids[0])] + RenderPids(pids[1..])
  }

  /** Output that lists PIDs one per line, as the query prints them, parses back to
      exactly those PIDs. */
  lemma PowerShellRoundTrip(pids: seq<Pid>, eol: string)
    requires eol == "\n" || eol == "\r\n"
    ensures PowerShellPids(Join(RenderPids(pids), eol)) == set p | p in pids
  {
    var lines := RenderPids(pids);
    var out := Join(lines, eol);
    forall k | 0 <= k < |lines|
      ensures NoLineBreak(lines[k]) && PowerShellLinePid(lines[k]) == Some(pids[k])
    {
      DigitsArePlain(lines[k]);
      DecimalRoundTrip(pids[k]);
    }
    StripJoinedDigits(lines, eol);
    SplitLinesJoin(lines, eol);
    CollectEveryLine(lines, PowerShellLinePid, pids);
  }

  /** Lines of digits joined by line boundaries need no stripping. */
  lemma StripJoinedDigits(lines: seq<string>, eol: string)
    requires forall k :: 0 <= k < |lines| ==> IsDigits(lines[k])
    ensures Strip(Join(lines, eol)) == Join(lines, eol)
  {
    if |lines| > 0 {
      JoinEnds(lines, eol);
      DigitsArePlain(lines[0]);
      DigitsArePlain(lines[|lines| - 1]);
    }
  }

  /** When every line carries a PID, collecting gives exactly those PIDs. */
  lemma CollectEveryLine(lines: seq<string>, pidOf: string -> Option<Pid>, pids: seq<Pid>)
    requires |lines| == |pids|
    requires forall k :: 0 <= k < |lines| ==> pidOf(lines[k]) == Some(pids[k])
    ensures Collect(lines, pidOf) == set p | p in pids
  {
    forall p ensures p in Collect(lines, pidOf) <==> p in pids {
      if p in pids {
        var k :| 0 <= k < |pids| && pids[k] == p;
        assert pidOf(lines[k]) == Some(p);
      }
    }
  }

  /** A string of digits has no line boundary, is its own `strip`, and is the line
      PID of its value. */
  lemma DigitsArePlain(s: string)
    requires IsDigits(s)
    ensures NoLineBreak(s) && !IsSpace(s[0]) && !IsSpace(s[|s| - 1])
    ensures Strip(s) == s
    ensures PowerShellLinePid(s) == Some(DecimalValue(s))
  {
  }

  /** A join of non-empty strings starts with the first part's first character and
      ends with the last part's last character. */
  lemma {:induction false} JoinEnds(parts: seq<string>, sep: string)
    requires |parts| > 0
    requires forall k :: 0 <= k < |parts| ==> |parts[k]| > 0
    ensures var s := Join(parts, sep);
      |s| > 0 && s[0] == parts[0][0] && s[|s| - 1] == parts[|parts| - 1][|parts[|parts| - 1]| - 1]
  {
    if |parts| > 1 {
      assert forall k :: 0 <= k < |parts[1..]| ==> parts[1..][k] == parts[k + 1];
      JoinEnds(parts[1..], sep);
    }
  }

  /** Blank lines, padding and lines that are not all digits contribute nothing. */
  lemma PowerShellSkipsNoise()
    ensures PowerShellPids("7 \r\n\r\nabc\r\n56") == {7, 56}
  {
    var out := "7 \r\n\r\nabc\r\n56";
    var lines := ["7 ", "", "abc", "56"];
    NoisyLines(out, lines);
    PaddedLinePid();
    NoPidLines();
    ShortLinePid();
    CollectTwoOfFour(lines, PowerShellLinePid, 7, 56);
  }

  /** Four lines of which the first and the last carry a PID. */
  lemma CollectTwoOfFour(lines: seq<string>, pidOf: string -> Option<Pid>, a: Pid, b: Pid)
    requires |lines| == 4
    requires pidOf(lines[0]) == Some(a) && pidOf(lines[3]) == Some(b)
    requires pidOf(lines[1]) == None && pidOf(lines[2]) == None
    ensures Collect(lines, pidOf) == {a, b}
  {
    var c := Collect(lines, pidOf);
    forall p ensures p in c <==> p == a || p == b {
      if p in c {
        var k :| 0 <= k < |lines| && pidOf(lines[k]) == Some(p);
        assert k == 0 || k == 1 || k == 2 || k == 3;
      }
    }
  }

  /** The lines of that output. */
  lemma NoisyLines(out: string, lines: seq<string>)
    requires out == "7 \r\n\r\nabc\r\n56"
    requires lines == ["7 ", "", "abc", "56"]
    ensures SplitLines(Strip(out)) == lines
  {
    assert Strip(out) == out;
    assert Join(lines, "\r\n") == out by {
      assert Join(lines[2..], "\r\n") == "abc\r\n56";
    }
    assert forall k :: 0 <= k < |lines| ==> NoLineBreak(lines[k]);
    SplitLinesJoin(lines, "\r\n");
  }

  /** Padding around the digits is stripped before they are read. */
  lemma PaddedLinePid()
    ensures PowerShellLinePid("7 ") == Some(7)
  {
    var line := "7 ";
    StripPadded("", "7", " ");
    assert "" + "7" + " " == line;
    assert "7"[..0] == "";
  }

  /** A blank line and a line of letters carry no PID. */
  lemma NoPidLines()
    ensures PowerShellLinePid("") == None && PowerShellLinePid("abc") == None
  {
    assert Strip("") == "";
    assert Strip("abc") == "abc";
  }

  lemma ShortLinePid()
    ensures PowerShellLinePid("56") == Some(56)
  {
    var line := "56";
    DigitsArePlain(line);
    DecimalRoundTrip(56);
    assert Decimal(56) == Decimal(5) + [DigitChar(6)];
    assert Decimal(56) == line;
  }

  // ---------------------------------------------------------------- tasklist CSV output (COM script)

  /** The PID of one `tasklist /FO CSV /NH` row: after removing every quote and
      splitting on commas, the second field when there is one and it is all digits. */
  function TaskListRowPid(line: string): Option<Pid> {
    var parts := Split(RemoveAll(line, '"'), ',');
    if |parts| >= 2 && IsDigits(parts[1]) then Some(DecimalValue(parts[1])) else None
  }

  /** The PIDs named by the `tasklist` output: one per line that has a PID field. */
  function TaskListPids(stdout: string): (pids: set<Pid>)
    ensures forall p :: p in pids <==>
      exists l :: l in SplitLines(Strip(stdout)) && TaskListRowPid(l) == Some(p)
  {
    Collect(SplitLines(Strip(stdout)), TaskListRowPid)
  }

  /** `get_pids`: the line loop over the `tasklist` output. */
  method GetPids(stdout: string) returns (pids: set<Pid>)
    ensures pids == TaskListPids(stdout)
  {
    pids := {};
    var lines := SplitLines(Strip(stdout));
    var i := 0;
    while i < |lines|
      invariant 0 <= i <= |lines|
      invariant pids == Collect(lines[..i], TaskListRowPid)
    {
      CollectSnoc(lines, i, TaskListRowPid);
      var found := TaskListRowPid(lines[i]);
      if found.Some? {
        pids := pids + {found.value};
      }
      i := i + 1;
    }
    assert lines[..|lines|] == lines;
  }

  /** Splitting at the first separator: the text before it, then the rest split. */
  lemma SplitAtFirst(a: string, b: string, c: char)
    requires c !in a
    ensures Split(a + [c] + b, c) == [a] + Split(b, c)
  {
    IndexOfPlain(a, [c] + b, c);
    assert a + [c] + b == a + ([c] + b);
    assert (a + [c] + b)[..|a|] == a;
    assert (a + [c] + b)[|a| + 1..] == b;
  }

  /** The first field is everything before the first separator. */
  lemma SplitFirstField(a: string, b: string, c: char)
    requires c !in a
    requires |b| > 0 ==> b[0] == c
    ensures Split(a + b, c)[0] == a
  {
    IndexOfPlain(a, b, c);
    if |b| == 0 {
      assert a + b == a;
    } else {
      assert (a + b)[..|a|] == a;
    }
  }

  /** A row as `tasklist` prints it, `"<image>","<pid>",...`, yields its PID when the
      image name holds no quote or comma. */
  lemma TaskListRowRoundTrip(image: string, pid: Pid, rest: string)
    requires '"' !in image && ',' !in image
    requires |rest| > 0 ==> rest[0] == ','
    ensures TaskListRowPid("\"" + image + "\",\"" + Decimal(pid) + "\"" + rest) == Some(pid)
  {
    var digits := Decimal(pid);
    assert '"' !in digits && ',' !in digits by {
      assert forall k :: 0 <= k < |digits| ==> IsDigit(digits[k]);
    }
    var tail := RemoveAll(rest, '"');
    assert |tail| > 0 ==> tail[0] == ',' by {
      if |rest| > 0 {
        assert rest == [rest[0]] + rest[1..];
        RemoveAllConcat([rest[0]], rest[1..], '"');
      }
    }
    UnquoteRow(image, digits, rest);
    var unquoted := image + [','] + (digits + tail);
    assert RemoveAll("\"" + image + "\",\"" + digits + "\"" + rest, '"') == unquoted;
    SplitAtFirst(image, digits + tail, ',');
    SplitFirstField(digits, tail, ',');
    var parts := Split(unquoted, ',');
    assert |parts| >= 2 && parts[1] == digits;
    DecimalRoundTrip(pid);
  }

  /** Removing the quotes of `"<image>","<digits>"<rest>` leaves `<image>,<digits>`
      followed by the unquoted rest. */
  lemma UnquoteRow(image: string, digits: string, rest: string)
    requires '"' !in image && '"' !in digits
    ensures RemoveAll("\"" + image + "\",\"" + digits + "\"" + rest, '"')
      == image + [','] + (digits + RemoveAll(rest, '"'))
  {
    var first := ['"'] + image + ['"'];
    var second := ['"'] + digits + ['"'];
    assert "\"" + image + "\",\"" + digits + "\"" + rest == first + ([','] + (second + rest));
    Unquote(image);
    Unquote(digits);
    RemoveAllConcat(second, rest, '"');
    RemoveAllConcat([','], second + rest, '"');
    RemoveAllConcat(first, [','] + (second + rest), '"');
  }

  /** Removing the quotes around a quote-free field gives the field. */
  lemma Unquote(field: string)
    requires '"' !in field
    ensures RemoveAll(['"'] + field + ['"'], '"') == field
  {
    RemoveAllConcat(['"'] + field, ['"'], '"');
    RemoveAllConcat(['"'], field, '"');
  }

  /** A line without a comma, such as the message `tasklist` prints when no process
      matches, names no PID. */
  lemma LineWithoutCommaHasNoPid(line: string)
    requires ',' !in line
    ensures TaskListRowPid(line) == None
  {
    RemoveAllKeepsOthers(line, '"', ',');
  }

  /** Removing one character never introduces another. */
  lemma {:induction false} RemoveAllKeepsOthers(s: string, c: char, d: char)
    requires d !in s
    ensures d !in RemoveAll(s, c)
    decreases |s|
  {
    if |s| > 0 {
      assert d !in s[1..];
      RemoveAllKeepsOthers(s[1..], c, d);
    }
  }

  // ---------------------------------------------------------------- tracking

  /** `after - before` merged into the tracked set: the tracked set only grows, and
      only by PIDs that appeared after the launch; every such PID is added. */
  function Track(tracked: set<Pid>, before: set<Pid>, after: set<Pid>): (r: set<Pid>)
    ensures tracked <= r
    ensures forall p :: p in r && p !in tracked ==> p in after && p !in before
    ensures forall p :: p in after && p !in before ==> p in r
  {
    tracked + (after - before)
  }

  /** One before/after pair of snapshots taken around a launch. */
  datatype Round = Round(before: set<Pid>, after: set<Pid>)

  /** The tracked set after tracking each round in turn. */
  function TrackAll(tracked: set<Pid>, rounds: seq<Round>): set<Pid>
    decreases |rounds|
  {
    if |rounds| == 0 then tracked
    else TrackAll(Track(tracked, rounds[0].before, rounds[0].after), rounds[1..])
  }

  /** However often tracking runs, every tracked PID was absent from the `before`
      snapshot and present in the `after` snapshot of some round. */
  lemma {:induction false} TrackedPidsWereNew(tracked: set<Pid>, rounds: seq<Round>)
    ensures forall p :: p in TrackAll(tracked, rounds) ==>
      p in tracked || exists k :: 0 <= k < |rounds| && p in rounds[k].after && p !in rounds[k].before
    decreases |rounds|
  {
    if |rounds| > 0 {
      var t := Track(tracked, rounds[0].before, rounds[0].after);
      TrackedPidsWereNew(t, rounds[1..]);
      forall p | p in TrackAll(tracked, rounds) && p !in tracked
        ensures exists k :: 0 <= k < |rounds| && p in rounds[k].after && p !in rounds[k].before
      {
        if p in t {
          assert p in rounds[0].after && p !in rounds[0].before;
        } else {
          var k :| 0 <= k < |rounds[1..]| && p in rounds[1..][k].after && p !in rounds[1..][k].before;
          assert rounds[1..][k] == rounds[k + 1];
        }
      }
    }
  }

  // ---------------------------------------------------------------- killing

  /** One `taskkill` per PID of the set, in the set's (unspecified) iteration order. */
  method KillEach(pids: set<Pid>) returns (kills: seq<Pid>)
    ensures forall p :: p in kills <==> p in pids
    ensures forall i, j :: 0 <= i < j < |kills| ==> kills[i] != kills[j]
    ensures |kills| == |pids|
  {
    kills := [];
    var rest := pids;
    while rest != {}
      invariant rest <= pids
      invariant forall p :: p in kills <==> p in pids && p !in rest
      invariant forall i, j :: 0 <= i < j < |kills| ==> kills[i] != kills[j]
      invariant |kills| + |rest| == |pids|
      decreases rest
    {
      var p :| p in rest;
      kills := kills + [p];
      rest := rest - {p};
    }
  }

  /** The kill commands a cleanup issues and whether it then pauses a second. */
  datatype Teardown = Teardown(kills: seq<Pid>, pause: bool)

  /** `_cleanup_tracked_ie_mode_edges`: nothing at all when no PID is tracked;
      otherwise one kill per tracked PID, then the pause. */
  method CleanupTrackedEdges(tracked: set<Pid>) returns (t: Teardown)
    ensures tracked == {} ==> t == Teardown([], false)
    ensures tracked != {} ==> t.pause
    ensures forall p :: p in t.kills <==> p in tracked
    ensures forall i, j :: 0 <= i < j < |t.kills| ==> t.kills[i] != t.kills[j]
  {
    if tracked == {} {
      return Teardown([], false);
    }
    var kills := KillEach(tracked);
    t := Teardown(kills, true);
  }

  /** `cleanup_tracked`: one kill per tracked PID, none when the set is empty, and
      the pause in every case. */
  method CleanupTracked(tracked: set<Pid>) returns (t: Teardown)
    ensures t.pause
    ensures tracked == {} ==> t.kills == []
    ensures forall p :: p in t.kills <==> p in tracked
    ensures forall i, j :: 0 <= i < j < |t.kills| ==> t.kills[i] != t.kills[j]
  {
    var kills: seq<Pid> := [];
    if tracked != {} {
      kills := KillEach(tracked);
    }
    t := Teardown(kills, true);
  }

  /** `_kill_existing_ie_mode_edges`, the pre-flight cleanup before the launch: it
      kills every IE-mode Edge the query finds, tracked or not. */
  method KillExistingIeModeEdges(stdout: Option<string>) returns (kills: seq<Pid>)
    ensures forall p :: p in kills <==> p in SnapshotPids(stdout)
    ensures forall i, j :: 0 <= i < j < |kills| ==> kills[i] != kills[j]
  {
    var pids := GetIeModeEdgePids(stdout);
    kills := KillEach(pids);
  }

  /** The tracked set of one session: empty unless the launch returned and the
      post-launch snapshot was taken. */
  function SessionTracked(launched: bool, before: set<Pid>, after: set<Pid>): (tracked: set<Pid>)
    ensures tracked !! before
    ensures tracked <= after
    ensures launched ==> tracked == after - before
    ensures !launched ==> tracked == {}
  {
    if launched then Track({}, before, after) else {}
  }

  /** A whole session of the Selenium script, as far as processes go: snapshot,
      launch, snapshot, and the teardown that always runs. The teardown never kills
      a PID seen in the pre-launch snapshot, kills each new PID exactly once, and
      does nothing at all when the launch raised. */
  method SessionTeardown(beforeOut: Option<string>, launched: bool, afterOut: Option<string>) returns (t: Teardown)
    ensures forall p :: p in t.kills ==> p !in SnapshotPids(beforeOut) && p in SnapshotPids(afterOut)
    ensures launched ==> forall p :: p in SnapshotPids(afterOut) && p !in SnapshotPids(beforeOut) ==> p in t.kills
    // a launch that raised tracked nothing: the cleanup returns at once, with no pause
    ensures !launched ==> t == Teardown([], false)
    ensures forall i, j :: 0 <= i < j < |t.kills| ==> t.kills[i] != t.kills[j]
  {
    var before := GetIeModeEdgePids(beforeOut);
    var tracked: set<Pid> := {};
    if launched {
      var after := GetIeModeEdgePids(afterOut);
      tracked := Track(tracked, before, after);
    }
    assert tracked == SessionTracked(launched, SnapshotPids(beforeOut), SnapshotPids(afterOut));
    t := CleanupTrackedEdges(tracked);
  }

  /** A whole session of the COM script, as far as processes go: `tasklist`
      snapshot, launch, snapshot, and the teardown in `finally`. The teardown never
      kills a PID of the first snapshot, kills each new PID exactly once, and pauses
      whether or not it killed anything. */
  method ComSessionTeardown(beforeOut: string, launched: bool, afterOut: string) returns (t: Teardown)
    ensures t.pause
    ensures forall p :: p in t.kills ==> p !in TaskListPids(beforeOut) && p in TaskListPids(afterOut)
    ensures launched ==> forall p :: p in TaskListPids(afterOut) && p !in TaskListPids(beforeOut) ==> p in t.kills
    ensures !launched ==> t.kills == []
    ensures forall i, j :: 0 <= i < j < |t.kills| ==> t.kills[i] != t.kills[j]
  {
    var before := GetPids(beforeOut);
    var tracked: set<Pid> := {};
    if launched {
      var after := GetPids(afterOut);
      tracked := Track(tracked, before, after);
    }
    assert tracked == SessionTracked(launched, TaskListPids(beforeOut), TaskListPids(afterOut));
    t := CleanupTracked(tracked);
  }

  /** When the pre-launch query fails its snapshot is empty, so every IE-mode Edge
      seen after the launch is tracked, whether or not it existed before. */
  lemma FailedSnapshotTracksEveryEdge(afterOut: Option<string>)
    ensures SessionTracked(true, SnapshotPids(None), SnapshotPids(afterOut)) == SnapshotPids(afterOut)
  {
  }
}
