/**
 * The "名前を付けて保存" (Save As) dialog of the COM script: a fixed-priority chain
 * of strategies for typing the file name, another for pressing Save, and the
 * best-effort confirmation of the overwrite dialog that may follow.
 *
 * Whether a strategy works (its control is found and accepts the action) is an
 * observation passed in as a predicate; the UI automation library is not
 * modelled.
 */
module SaveDialog {
  import opened Common
  import ButtonText

  // ---------------------------------------------------------------- fallback chains

  /** The outcome of trying strategies in priority order: the index of the first
      that worked, or all of them failed. */
  datatype Chain = Chosen(index: nat) | Exhausted

  /** Try `order` front to back and stop at the first strategy that works. */
  function RunChain<S>(order: seq<S>, works: S -> bool): (r: Chain)
    ensures r.Chosen? ==> r.index < |order| && works(order[r.index])
    ensures r.Chosen? ==> forall j :: 0 <= j < r.index ==> !works(order[j])
    ensures r.Exhausted? <==> forall j :: 0 <= j < |order| ==> !works(order[j])
  {
    ChainFrom(order, works, 0)
  }

  function ChainFrom<S>(order: seq<S>, works: S -> bool, from: nat): (r: Chain)
    requires from <= |order|
    requires forall j :: 0 <= j < from ==> !works(order[j])
    ensures r.Chosen? ==> from <= r.index < |order| && works(order[r.index])
    ensures r.Chosen? ==> forall j :: 0 <= j < r.index ==> !works(order[j])
    ensures r.Exhausted? <==> forall j :: 0 <= j < |order| ==> !works(order[j])
    decreases |order| - from
  {
    if from == |order| then Exhausted
    else if works(order[from]) then Chosen(from)
    else ChainFrom(order, works, from + 1)
  }

  /** The strategies a chain attempted, in order: up to and including the winner,
      or all of them. */
  function Tried<S>(order: seq<S>, r: Chain): (tried: seq<S>)
    requires r.Chosen? ==> r.index < |order|
    ensures r.Chosen? ==> |tried| == r.index + 1 && tried[r.index] == order[r.index]
    ensures r.Exhausted? ==> tried == order
    ensures forall j :: 0 <= j < |tried| ==> tried[j] == order[j]
  {
    match r
    case Chosen(i) => order[..i + 1]
    case Exhausted => order
  }

  // ---------------------------------------------------------------- the two chains

  /** Typing the file name: the Edit inside `FileNameControlHost`, an Edit whose
      title contains "ファイル名", or Alt+N, Ctrl+A and the keystrokes of the path. */
  datatype FileNameStrategy = ControlHostEdit | TitledEdit | AltNTyping

  const FileNameOrder: seq<FileNameStrategy> := [ControlHostEdit, TitledEdit, AltNTyping]

  /** Pressing Save: the button with automation id "1", a button whose title
      contains "保存", Alt+S, or Enter. */
  datatype SaveStrategy = ButtonIdOne | TitledButton | AltS | EnterKey

  const SaveOrder: seq<SaveStrategy> := [ButtonIdOne, TitledButton, AltS, EnterKey]

  // ---------------------------------------------------------------- the overwrite dialog

  /** The exact title the COM script looks for on the overwrite dialog. */
  const YesTitle := "はい(&Y)"

  /** The "名前を付けて保存の確認" window after the wait: whether it showed up
      (`None` when looking it up raised), the captions of its buttons, and whether
      clicking the chosen button works. */
  datatype OverwriteDialog = OverwriteDialog(shown: Option<bool>, captions: seq<string>, clickWorks: bool)

  datatype ComOverwrite = NoOverwriteDialog | ConfirmedOverwrite | OverwriteSwallowed

  /** The `try` block after Save: when the dialog shows, click the one button
      titled exactly "はい(&Y)"; a missing or repeated button, a failed click or a
      failed lookup raise, and the `except` swallows every one of them. */
  function ConfirmOverwrite(d: OverwriteDialog): (o: ComOverwrite)
    ensures o.NoOverwriteDialog? <==> d.shown == Some(false)
    ensures o.ConfirmedOverwrite? <==> d.shown == Some(true) && multiset(d.captions)[YesTitle] == 1 && d.clickWorks
  {
    match d.shown
    case None => OverwriteSwallowed
    case Some(false) => NoOverwriteDialog
    case Some(true) =>
      if multiset(d.captions)[YesTitle] == 1 && d.clickWorks then ConfirmedOverwrite else OverwriteSwallowed
  }

  /** The exact-title lookup misses a "はい(Y)" button that the Selenium script's
      normalised matching accepts, so the confirmation silently does nothing. */
  lemma ExactTitleMissesPlainYes(clickWorks: bool)
    ensures ConfirmOverwrite(OverwriteDialog(Some(true), ["はい(Y)", "いいえ(N)"], clickWorks)) == OverwriteSwallowed
    ensures ButtonText.IsAffirmative("はい(Y)")
  {
    var captions := ["はい(Y)", "いいえ(N)"];
    assert captions == ["はい(Y)"] + ["いいえ(N)"];
    assert "はい(Y)" != YesTitle by {
      assert |"はい(Y)"| != |YesTitle|;
    }
    assert "いいえ(N)" != YesTitle by {
      assert "いいえ(N)"[0] != YesTitle[0];
    }
    assert multiset(captions)[YesTitle] == 0;
    ButtonText.AmpersandTargetsStayDistinct();
  }

  /** Whatever the dialog, the COM script confirms only a dialog that the Selenium
      script's normalised matcher also recognises: the button it clicks carries an
      affirmative caption, so the Selenium matcher never reports "not found" there. */
  lemma ConfirmedOnlyIfRecognised(d: OverwriteDialog)
    ensures ConfirmOverwrite(d).ConfirmedOverwrite? ==>
      YesTitle in d.captions && ButtonText.IsAffirmative(YesTitle)
      && !ButtonText.MatchOverwrite(d.captions).NoMatch?
  {
    if ConfirmOverwrite(d).ConfirmedOverwrite? {
      assert YesTitle in multiset(d.captions);
      var k :| 0 <= k < |d.captions| && d.captions[k] == YesTitle;
      ButtonText.AmpersandTargetsStayDistinct();
      assert YesTitle == ButtonText.Targets[0];
      assert ButtonText.IsAffirmative(d.captions[k]);
    }
  }

  // ---------------------------------------------------------------- the whole dialog step

  /** What the dialog step did: the file-name chain, the Save chain (run only once
      a file name was entered), and the overwrite confirmation (only after Save). */
  datatype SaveRun = SaveRun(fileName: Chain, save: Option<Chain>, overwrite: Option<ComOverwrite>)

  /** The step returned normally; otherwise it raised `RuntimeError`. */
  predicate Succeeded(r: SaveRun) {
    r.fileName.Chosen? && r.save.Some? && r.save.value.Chosen?
  }

  /** `step_handle_save_dialog` from the file-name input on. */
  function HandleSaveDialog(fileNameWorks: FileNameStrategy -> bool, saveWorks: SaveStrategy -> bool,
                            d: OverwriteDialog): (r: SaveRun)
    ensures r.fileName == RunChain(FileNameOrder, fileNameWorks)
    ensures r.save.Some? <==> exists j :: 0 <= j < |FileNameOrder| && fileNameWorks(FileNameOrder[j])
    ensures r.save.Some? ==> r.save.value == RunChain(SaveOrder, saveWorks)
    ensures r.overwrite.Some? <==> Succeeded(r)
    ensures r.overwrite.Some? ==> r.overwrite.value == ConfirmOverwrite(d)
  {
    var name := RunChain(FileNameOrder, fileNameWorks);
    if name.Exhausted? then SaveRun(name, None, None)
    else
      var save := RunChain(SaveOrder, saveWorks);
      if save.Exhausted? then SaveRun(name, Some(save), None)
      else SaveRun(name, Some(save), Some(ConfirmOverwrite(d)))
  }

  /** The step succeeds exactly when some file-name strategy and some Save strategy
      work; what the overwrite dialog does never changes that. */
  lemma {:induction false} SuccessIgnoresOverwrite(fileNameWorks: FileNameStrategy -> bool,
                                                   saveWorks: SaveStrategy -> bool,
                                                   d1: OverwriteDialog, d2: OverwriteDialog)
    ensures Succeeded(HandleSaveDialog(fileNameWorks, saveWorks, d1)) <==>
      (exists j :: 0 <= j < |FileNameOrder| && fileNameWorks(FileNameOrder[j]))
      && (exists j :: 0 <= j < |SaveOrder| && saveWorks(SaveOrder[j]))
    ensures Succeeded(HandleSaveDialog(fileNameWorks, saveWorks, d1)) ==
      Succeeded(HandleSaveDialog(fileNameWorks, saveWorks, d2))
  {
    var r1 := HandleSaveDialog(fileNameWorks, saveWorks, d1);
    var r2 := HandleSaveDialog(fileNameWorks, saveWorks, d2);
    assert r1.fileName == r2.fileName && r1.save == r2.save;
  }

  /** When the primary file-name strategy works no fallback is attempted, and
      likewise for Save. */
  lemma PrimaryStrategyStopsTheChain(fileNameWorks: FileNameStrategy -> bool, saveWorks: SaveStrategy -> bool,
                                     d: OverwriteDialog)
    requires fileNameWorks(ControlHostEdit)
    ensures var r := HandleSaveDialog(fileNameWorks, saveWorks, d);
      Tried(FileNameOrder, r.fileName) == [ControlHostEdit]
      && (saveWorks(ButtonIdOne) ==> r.save.Some? && Tried(SaveOrder, r.save.value) == [ButtonIdOne])
  {
    var r := HandleSaveDialog(fileNameWorks, saveWorks, d);
    assert r.fileName == Chosen(0);
    if saveWorks(ButtonIdOne) {
      assert r.save == Some(Chosen(0));
    }
  }

  /** The Enter key is the last resort: it is tried only after the three other
      Save strategies failed. */
  lemma EnterOnlyAsLastResort(saveWorks: SaveStrategy -> bool)
    ensures var r := RunChain(SaveOrder, saveWorks);
      EnterKey in Tried(SaveOrder, r) <==> !saveWorks(ButtonIdOne) && !saveWorks(TitledButton) && !saveWorks(AltS)
  {
    var r := RunChain(SaveOrder, saveWorks);
    var tried := Tried(SaveOrder, r);
    if !saveWorks(ButtonIdOne) && !saveWorks(TitledButton) && !saveWorks(AltS) {
      if r.Chosen? {
        assert r.index == 3;
      }
      assert tried[3] == EnterKey;
    }
    if EnterKey in tried {
      var k :| 0 <= k < |tried| && tried[k] == EnterKey;
      assert SaveOrder[k] == EnterKey;
      assert k == 3;
    }
  }
}
