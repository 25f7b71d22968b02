/**
 * Caption normalisation and the affirmative-button match of the overwrite
 * confirmation dialog ("名前を付けて保存の確認") in the Selenium script.
 *
 * Captions are normalised by dropping whitespace and a few invisible characters,
 * then compared with the normalised targets "はい(&Y)" and "はい(Y)". The `&`
 * mnemonic marker is NOT dropped, so the two targets stay distinct.
 */
module ButtonText {
  import opened Common
  import opened Text

  /** A character the normaliser keeps: not whitespace, not a C0 control
      (below U+0020), not DEL, and neither bidi mark U+200E nor U+200F. */
  predicate Kept(c: char) {
    !IsSpace(c) && c as int >= 32 && c != '\U{7F}' && c != '\U{200E}' && c != '\U{200F}'
  }

  /** The normalised caption: the kept characters of `s`, in order. */
  function Norm(s: string): (r: string)
    ensures |r| <= |s|
    ensures forall k :: 0 <= k < |r| ==> Kept(r[k])
  {
    if |s| == 0 then []
    else
      var last := s[|s| - 1];
      Norm(s[..|s| - 1]) + (if Kept(last) then [last] else [])
  }

  /** The character-by-character loop of the source, producing exactly `Norm(s)`. */
  method NormButtonText(s: string) returns (out: string)
    ensures out == Norm(s)
  {
    out := [];
    var i := 0;
    while i < |s|
      invariant 0 <= i <= |s|
      invariant out == Norm(s[..i])
    {
      var ch := s[i];
      assert s[..i + 1][..i] == s[..i];
      i := i + 1;
      if IsSpace(ch) {
        continue;
      }
      if ch as int < 32 || ch as int == 127 || ch == '\U{200E}' || ch == '\U{200F}' {
        continue;
      }
      out := out + [ch];
    }
    assert s[..|s|] == s;
  }

  /** `a` is a subsequence of `b`: `b` with some characters removed. */
  predicate IsSubsequence(a: string, b: string)
    decreases |b|
  {
    if |a| == 0 then true
    else if |b| == 0 then false
    else if a[|a| - 1] == b[|b| - 1] then IsSubsequence(a[..|a| - 1], b[..|b| - 1])
    else IsSubsequence(a, b[..|b| - 1])
  }

  /** The normaliser keeps every kept character, as often as it occurs and in its
      original order, and drops every other character. */
  lemma NormKeepsExactlyTheKept(s: string)
    ensures IsSubsequence(Norm(s), s)
    ensures forall c :: multiset(Norm(s))[c] == if Kept(c) then multiset(s)[c] else 0
  {
    NormIsSubsequence(s);
    NormCounts(s);
  }

  lemma {:induction false} NormIsSubsequence(s: string)
    ensures IsSubsequence(Norm(s), s)
  {
    if |s| > 0 {
      var init, last := s[..|s| - 1], s[|s| - 1];
      NormIsSubsequence(init);
      var n := Norm(init);
      assert s == init + [last];
      if Kept(last) {
        assert Norm(s) == n + [last];
        assert (n + [last])[..|n|] == n;
      } else {
        if |n| > 0 {
          assert Kept(n[|n| - 1]);
        }
        assert Norm(s) == n;
        SubsequenceExtend(n, init, last);
      }
    }
  }

  lemma {:induction false} NormCounts(s: string)
    ensures forall c :: multiset(Norm(s))[c] == if Kept(c) then multiset(s)[c] else 0
  {
    if |s| > 0 {
      var init, last := s[..|s| - 1], s[|s| - 1];
      NormCounts(init);
      assert s == init + [last];
      assert multiset(s) == multiset(init) + multiset{last};
      if Kept(last) {
        assert multiset(Norm(s)) == multiset(Norm(init)) + multiset{last};
      } else {
        assert Norm(s) == Norm(init);
      }
    }
  }

  /** Appending a character to the longer string keeps a subsequence a subsequence. */
  lemma {:induction false} SubsequenceExtend(a: string, b: string, x: char)
    requires IsSubsequence(a, b)
    requires |a| > 0 ==> a[|a| - 1] != x
    ensures IsSubsequence(a, b + [x])
  {
    assert (b + [x])[..|b|] == b;
  }

  /** A caption made only of kept characters is its own normal form, and only such a one. */
  lemma {:induction false} NormFixedPoint(s: string)
    ensures Norm(s) == s <==> forall k :: 0 <= k < |s| ==> Kept(s[k])
  {
    if |s| > 0 {
      var init := s[..|s| - 1];
      NormFixedPoint(init);
      if forall k :: 0 <= k < |s| ==> Kept(s[k]) {
        assert forall k :: 0 <= k < |init| ==> Kept(init[k]) by {
          forall k | 0 <= k < |init| ensures Kept(init[k]) {
            assert init[k] == s[k];
          }
        }
        assert s == init + [s[|s| - 1]];
      }
    }
  }

  /** Normalising twice is normalising once. */
  lemma NormIdempotent(s: string)
    ensures Norm(Norm(s)) == Norm(s)
  {
    NormFixedPoint(Norm(s));
  }

  /** Normalisation works character by character, so it distributes over concatenation. */
  lemma {:induction false} NormConcat(a: string, b: string)
    ensures Norm(a + b) == Norm(a) + Norm(b)
    decreases |b|
  {
    if |b| == 0 {
      assert a + b == a;
    } else {
      var init := b[..|b| - 1];
      assert (a + b)[..|a + b| - 1] == a + init;
      NormConcat(a, init);
    }
  }

  // ---------------------------------------------------------------- overwrite matching

  /** The captions the Selenium script accepts as "yes, overwrite". */
  const Targets: seq<string> := ["はい(&Y)", "はい(Y)"]

  /** A caption whose normal form equals the normal form of one of the targets
      (the source's lookup among the normalised target keys). */
  predicate IsAffirmative(caption: string) {
    Norm(caption) == Norm(Targets[0]) || Norm(caption) == Norm(Targets[1])
  }

  /** The `&` mnemonic marker survives normalisation: the two targets stay distinct,
      and a bare "はい" matches neither. */
  lemma AmpersandTargetsStayDistinct()
    ensures Norm(Targets[0]) == "はい(&Y)" && Norm(Targets[1]) == "はい(Y)"
    ensures Norm(Targets[0]) != Norm(Targets[1])
    ensures !IsAffirmative("はい")
  {
    forall t | t in [Targets[0], Targets[1], "はい"]
      ensures Norm(t) == t
    {
      assert forall k :: 0 <= k < |t| ==> Kept(t[k]);
      NormFixedPoint(t);
    }
    assert |Targets[0]| != |Targets[1]|;
  }

  /** One character normalises to itself when kept and to nothing otherwise. */
  lemma NormChar(c: char)
    ensures Norm([c]) == if Kept(c) then [c] else []
  {
    assert [c][..0] == [];
  }

  /** Bidi marks, controls and whitespace inserted anywhere in a caption change
      neither its normal form nor whether it is affirmative. */
  lemma InvisibleCharactersIgnored(before: string, junk: string, after: string)
    requires forall k :: 0 <= k < |junk| ==> !Kept(junk[k])
    ensures Norm(before + junk + after) == Norm(before + after)
    ensures IsAffirmative(before + junk + after) <==> IsAffirmative(before + after)
  {
    NothingKept(junk);
    NormConcat(before + junk, after);
    NormConcat(before, junk);
    NormConcat(before, after);
  }

  /** A string with no kept character normalises to nothing. */
  lemma {:induction false} NothingKept(s: string)
    requires forall k :: 0 <= k < |s| ==> !Kept(s[k])
    ensures Norm(s) == []
  {
    if |s| > 0 {
      NothingKept(s[..|s| - 1]);
    }
  }

  // ---------------------------------------------------------------- filtering captions

  /** The captions `accept` takes, in dialog order. */
  function Filter(captions: seq<string>, accept: string -> bool): (kept: seq<string>)
    ensures |kept| <= |captions|
    ensures forall c :: c in kept ==> c in captions && accept(c)
    ensures forall k :: 0 <= k < |captions| && accept(captions[k]) ==> captions[k] in kept
  {
    if |captions| == 0 then []
    else (if accept(captions[0]) then [captions[0]] else []) + Filter(captions[1..], accept)
  }

  /** Two captions at distinct positions are accepted. */
  predicate TwoAccepted(captions: seq<string>, accept: string -> bool) {
    exists i, j :: 0 <= i < j < |captions| && accept(captions[i]) && accept(captions[j])
  }

  /** The caption at `k` is accepted and no other position is. */
  predicate OnlyAcceptedAt(captions: seq<string>, accept: string -> bool, k: int) {
    && 0 <= k < |captions|
    && accept(captions[k])
    && forall j :: 0 <= j < |captions| && j != k ==> !accept(captions[j])
  }

  /** Two accepted positions keep at least two captions. */
  lemma {:induction false} TwoAcceptedKeptTwice(captions: seq<string>, accept: string -> bool)
    requires TwoAccepted(captions, accept)
    ensures |Filter(captions, accept)| >= 2
  {
    var tail := captions[1..];
    var i, j :| 0 <= i < j < |captions| && accept(captions[i]) && accept(captions[j]);
    assert captions[j] == tail[j - 1];
    if i > 0 {
      assert captions[i] == tail[i - 1];
      assert TwoAccepted(tail, accept);
      TwoAcceptedKeptTwice(tail, accept);
    } else {
      assert tail[j - 1] in Filter(tail, accept);
    }
  }

  /** Two kept captions come from two accepted positions. */
  lemma {:induction false} KeptTwiceTwoAccepted(captions: seq<string>, accept: string -> bool)
    requires |Filter(captions, accept)| >= 2
    ensures TwoAccepted(captions, accept)
  {
    var tail := captions[1..];
    if accept(captions[0]) {
      var m := Filter(tail, accept)[0];
      assert m in Filter(tail, accept);
      var j :| 0 <= j < |tail| && tail[j] == m;
      assert captions[j + 1] == m;
    } else {
      KeptTwiceTwoAccepted(tail, accept);
      var i, j :| 0 <= i < j < |tail| && accept(tail[i]) && accept(tail[j]);
      assert captions[i + 1] == tail[i] && captions[j + 1] == tail[j];
    }
  }

  /** A single kept caption comes from the only accepted position. */
  lemma {:induction false} KeptOnceOnlyAccepted(captions: seq<string>, accept: string -> bool)
    requires |Filter(captions, accept)| == 1
    ensures exists k :: OnlyAcceptedAt(captions, accept, k) && captions[k] == Filter(captions, accept)[0]
  {
    var tail := captions[1..];
    if accept(captions[0]) {
      assert |Filter(tail, accept)| == 0;
      assert forall j :: 1 <= j < |captions| ==> captions[j] == tail[j - 1];
      assert OnlyAcceptedAt(captions, accept, 0);
    } else {
      KeptOnceOnlyAccepted(tail, accept);
      var k :| OnlyAcceptedAt(tail, accept, k) && tail[k] == Filter(tail, accept)[0];
      assert forall j :: 1 <= j < |captions| ==> captions[j] == tail[j - 1];
      assert OnlyAcceptedAt(captions, accept, k + 1);
    }
  }

  // ---------------------------------------------------------------- affirmative captions

  /** The `matched` list: the affirmative captions, in dialog order. */
  function Matches(captions: seq<string>): seq<string> {
    Filter(captions, IsAffirmative)
  }

  predicate TwoAffirmative(captions: seq<string>) {
    TwoAccepted(captions, IsAffirmative)
  }

  predicate OnlyAffirmativeAt(captions: seq<string>, k: int) {
    OnlyAcceptedAt(captions, IsAffirmative, k)
  }

  /** More than one entry in `matched` means two affirmative positions, and back. */
  lemma SeveralMatchesIffTwoAffirmative(captions: seq<string>)
    ensures |Matches(captions)| >= 2 <==> TwoAffirmative(captions)
  {
    if TwoAffirmative(captions) {
      TwoAcceptedKeptTwice(captions, IsAffirmative);
    }
    if |Matches(captions)| >= 2 {
      KeptTwiceTwoAccepted(captions, IsAffirmative);
    }
  }

  /** The three-way decision of the overwrite handler. */
  datatype Match = Unique(caption: string) | NoMatch | Ambiguous(matched: seq<string>)

  /** Exactly one affirmative caption selects it; none reports "not found"; two or
      more report "multiple match" with every affirmative caption listed. */
  function MatchOverwrite(captions: seq<string>): (r: Match)
    ensures r.NoMatch? <==> forall k :: 0 <= k < |captions| ==> !IsAffirmative(captions[k])
    ensures r.Ambiguous? <==> TwoAffirmative(captions)
    ensures r.Unique? ==> exists k :: OnlyAffirmativeAt(captions, k) && captions[k] == r.caption
    ensures r.Ambiguous? ==> forall c :: c in r.matched <==> c in captions && IsAffirmative(c)
  {
    var matched := Matches(captions);
    SeveralMatchesIffTwoAffirmative(captions);
    if |matched| == 1 then
      KeptOnceOnlyAccepted(captions, IsAffirmative);
      Unique(matched[0])
    else if |matched| == 0 then
      NoMatch
    else
      Ambiguous(matched)
  }

  // ---------------------------------------------------------------- the handler

  /** What the window-automation library reports about the overwrite dialog: whether
      it appeared within the wait, the captions of its buttons, whether clicking the
      chosen button worked (`click()` or its `click_input()` fallback), and whether
      the dialog then disappeared within the wait. */
  datatype OverwriteDialog = OverwriteDialog(shown: bool, captions: seq<string>, clickWorks: bool, closes: bool)

  /** The failure the handler logs as a warning instead of raising. */
  datatype OverwriteWarning =
    | NoAffirmativeButton
    | SeveralAffirmativeButtons(matched: seq<string>)
    | ClickFailed
    | DialogStayed

  /** The caption clicked, the warning logged, and the moment from which the
      download is considered started. */
  datatype OverwriteReport = OverwriteReport(clicked: Option<string>, warning: Option<OverwriteWarning>, downloadStart: int)

  /** The overwrite handling of the Selenium save step. The save button was clicked
      at `savedAt`; a click on the overwrite button ends at `confirmedAt`. Every
      failure becomes a warning: nothing is raised. */
  function HandleOverwrite(d: OverwriteDialog, savedAt: int, confirmedAt: int): (r: OverwriteReport)
    ensures !d.shown ==> r == OverwriteReport(None, None, savedAt)
    ensures r.clicked.Some? <==> d.shown && MatchOverwrite(d.captions).Unique? && d.clickWorks
    ensures r.clicked.Some? ==> r.clicked.value in d.captions && IsAffirmative(r.clicked.value)
    ensures d.shown && TwoAffirmative(d.captions) ==> r.clicked.None? && r.warning.Some?
    ensures r.warning.None? <==> !d.shown || (r.clicked.Some? && d.closes)
    ensures r.downloadStart == if r.clicked.Some? then confirmedAt else savedAt
  {
    if !d.shown then OverwriteReport(None, None, savedAt)
    else
      match MatchOverwrite(d.captions)
      case NoMatch => OverwriteReport(None, Some(NoAffirmativeButton), savedAt)
      case Ambiguous(m) => OverwriteReport(None, Some(SeveralAffirmativeButtons(m)), savedAt)
      case Unique(c) =>
        if !d.clickWorks then OverwriteReport(None, Some(ClickFailed), savedAt)
        else OverwriteReport(Some(c), if d.closes then None else Some(DialogStayed), confirmedAt)
  }

  /** Two buttons whose captions both normalise to a target: nothing is clicked. */
  lemma AmbiguousDialogClicksNothing(savedAt: int, confirmedAt: int)
    ensures var d := OverwriteDialog(true, ["はい(&Y)", "キャンセル", "\U{200E}はい(Y)"], true, true);
            var r := HandleOverwrite(d, savedAt, confirmedAt);
            r.clicked.None? && r.warning.Some? && r.warning.value.SeveralAffirmativeButtons?
  {
    var captions := ["はい(&Y)", "キャンセル", "\U{200E}はい(Y)"];
    NormConcat("\U{200E}", "はい(Y)");
    NormChar('\U{200E}');
    assert captions[0] == Targets[0];
    assert captions[2] == "\U{200E}" + Targets[1];
    assert Norm(captions[2]) == Norm(Targets[1]);
    assert IsAffirmative(captions[0]) && IsAffirmative(captions[2]);
    assert TwoAffirmative(captions);
  }
}
