/**
 The static `Dialog` entry points. Each creates one result cell and one widget whose
 terminal reactions settle that cell; a click is delivered as an event, and the value
 the awaiting caller resumes with is read from the cell. The host's display call is
 reduced to keeping the question with the dialog.
 */
module Dialogs {
  import opened Options
  import opened Controls
  import opened ButtonArrays
  import opened Completion
  import Prompts

  /** Delivering one event: the dialog afterwards, or the exception a reaction raised (the dialog is then unchanged). */
  datatype Delivery<D> = Delivered(dialog: D) | Raised(dialog: D)

  // ---------------------------------------------------------------------------
  // Fixed-choice dialogs

  /** The reaction `_ => tcs.SetResult(value)`. */
  datatype Reaction<T> = SetResultTo(value: T)

  datatype ChoiceDialog<T> = ChoiceDialog(question: string, buttons: ButtonArray<Reaction<T>>, cell: Cell<T>)

  /** Button i settles the cell with `values[i]`. */
  ghost predicate Wired<T>(d: ChoiceDialog<T>, values: seq<T>)
  {
    && |d.buttons.buttons| == |values|
    && forall i :: 0 <= i < |values| ==> d.buttons.buttons[i].onClick == Some(SetResultTo(values[i]))
  }

  /** A click on button `i`. */
  function Click<T>(d: ChoiceDialog<T>, i: nat): (r: Delivery<ChoiceDialog<T>>)
    requires i < |d.buttons.buttons|
    ensures r.dialog.buttons == d.buttons && r.dialog.question == d.question
  {
    match Press(d.buttons, i)
    case None => Delivered(d)
    case Some(reaction) =>
      match SetResult(d.cell, reaction.value)
      case Settled(c) => Delivered(d.(cell := c))
      case AlreadyCompleted(_) => Raised(d)
  }

  /** What the awaiting caller resumes with, if it has resumed. */
  function Result<T>(d: ChoiceDialog<T>): Option<T>
  {
    Awaited(d.cell)
  }

  /** A fresh wired dialog resolves with the value for the button clicked. */
  lemma ClickResolves<T>(d: ChoiceDialog<T>, values: seq<T>, i: nat)
    requires Wired(d, values) && d.cell.Unset?
    requires i < |values|
    ensures Click(d, i).Delivered?
    ensures Result(Click(d, i).dialog) == Some(values[i])
  {
  }

  /** A run of clicks on in-range buttons: the dialog afterwards and how many clicks raised. */
  function ClickAll<T>(d: ChoiceDialog<T>, clicks: seq<nat>): (r: (ChoiceDialog<T>, nat))
    requires forall k :: 0 <= k < |clicks| ==> clicks[k] < |d.buttons.buttons|
    ensures r.0.buttons == d.buttons
    decreases |clicks|
  {
    if |clicks| == 0 then (d, 0)
    else
      var c := Click(d, clicks[0]);
      var (final, raised) := ClickAll(c.dialog, clicks[1..]);
      (final, raised + if c.Raised? then 1 else 0)
  }

  /**
   Exactly-once: in a wired dialog the first click decides the result; every later
   click raises from `SetResult` and changes nothing.
   */
  lemma {:induction false} FirstClickWins<T>(d: ChoiceDialog<T>, values: seq<T>, clicks: seq<nat>)
    requires Wired(d, values) && d.cell.Unset?
    requires |clicks| > 0
    requires forall k :: 0 <= k < |clicks| ==> clicks[k] < |values|
    ensures Result(ClickAll(d, clicks).0) == Some(values[clicks[0]])
    ensures ClickAll(d, clicks).1 == |clicks| - 1
  {
    var first := Click(d, clicks[0]).dialog;
    assert first.cell == Set(values[clicks[0]]);
    LaterClicksRaise(first, values, clicks[1..]);
  }

  lemma {:induction false} LaterClicksRaise<T>(d: ChoiceDialog<T>, values: seq<T>, clicks: seq<nat>)
    requires Wired(d, values) && d.cell.Set?
    requires forall k :: 0 <= k < |clicks| ==> clicks[k] < |values|
    ensures ClickAll(d, clicks) == (d, |clicks|)
    decreases |clicks|
  {
    if |clicks| > 0 {
      assert Click(d, clicks[0]) == Raised(d);
      LaterClicksRaise(d, values, clicks[1..]);
    }
  }

  function AbortRetryIgnore<T>(question: string, abortValue: T, retryValue: T, ignoreValue: T): (d: ChoiceDialog<T>)
    ensures d.cell.Unset?
    ensures Labels(d.buttons) == [ButtonAbort, ButtonRetry, ButtonIgnore]
    ensures Wired(d, [abortValue, retryValue, ignoreValue])
  {
    ChoiceDialog(question, AbortRetryIgnoreButtonArray(Some(SetResultTo(abortValue)), Some(SetResultTo(retryValue)), Some(SetResultTo(ignoreValue))), Unset)
  }

  function CancelTryContinue<T>(question: string, cancelValue: T, tryValue: T, continueValue: T): (d: ChoiceDialog<T>)
    ensures d.cell.Unset?
    ensures Labels(d.buttons) == [ButtonCancel, ButtonTry, ButtonContinue]
    ensures Wired(d, [cancelValue, tryValue, continueValue])
  {
    ChoiceDialog(question, CancelTryContinueButtonArray(Some(SetResultTo(cancelValue)), Some(SetResultTo(tryValue)), Some(SetResultTo(continueValue))), Unset)
  }

  function OK<T>(message: string, okValue: T): (d: ChoiceDialog<T>)
    ensures d.cell.Unset?
    ensures Labels(d.buttons) == [ButtonOK]
    ensures Wired(d, [okValue])
  {
    ChoiceDialog(message, OKButtonArray(Some(SetResultTo(okValue))), Unset)
  }

  /** The non-generic `OK(message)`: its only button settles the cell with the unit value. */
  function OKUnit(message: string): (d: ChoiceDialog<()>)
    ensures d.cell.Unset?
    ensures Labels(d.buttons) == [ButtonOK]
    ensures Wired(d, [()])
    ensures Result(Click(d, 0).dialog) == Some(())
  {
    ChoiceDialog(message, OKButtonArray(Some(SetResultTo(()))), Unset)
  }

  function OKCancel<T>(question: string, okValue: T, cancelValue: T): (d: ChoiceDialog<T>)
    ensures d.cell.Unset?
    ensures Labels(d.buttons) == [ButtonOK, ButtonCancel]
    ensures Wired(d, [okValue, cancelValue])
  {
    ChoiceDialog(question, OKCancelButtonArray(Some(SetResultTo(okValue)), Some(SetResultTo(cancelValue))), Unset)
  }

  /**
   Built, like `OKCancel`, on the OK/Cancel button array: the retry value sits on the
   first button, captioned OK, and the cancel value on the second.
   */
  function RetryCancel<T>(question: string, retryValue: T, cancelValue: T): (d: ChoiceDialog<T>)
    ensures d.cell.Unset?
    ensures Labels(d.buttons) == [ButtonOK, ButtonCancel]
    ensures Labels(d.buttons) != Labels(RetryCancelButtonArray<Reaction<T>>(None, None))
    ensures Wired(d, [retryValue, cancelValue])
  {
    ChoiceDialog(question, OKCancelButtonArray(Some(SetResultTo(retryValue)), Some(SetResultTo(cancelValue))), Unset)
  }

  function YesNo<T>(question: string, yesValue: T, noValue: T): (d: ChoiceDialog<T>)
    ensures d.cell.Unset?
    ensures Labels(d.buttons) == [ButtonYes, ButtonNo]
    ensures Wired(d, [yesValue, noValue])
  {
    ChoiceDialog(question, YesNoButtonArray(Some(SetResultTo(yesValue)), Some(SetResultTo(noValue))), Unset)
  }

  function YesNoCancel<T>(question: string, yesValue: T, noValue: T, cancelValue: T): (d: ChoiceDialog<T>)
    ensures d.cell.Unset?
    ensures Labels(d.buttons) == [ButtonYes, ButtonNo, ButtonCancel]
    ensures Wired(d, [yesValue, noValue, cancelValue])
  {
    ChoiceDialog(question, YesNoCancelButtonArray(Some(SetResultTo(yesValue)), Some(SetResultTo(noValue)), Some(SetResultTo(cancelValue))), Unset)
  }

  // ---------------------------------------------------------------------------
  // Text prompts

  /** The OK reaction of `OKPrompt`: `textBox => tcs.SetResult(textBox.Text)`. */
  datatype SetText = SetResultToText

  /** The reactions of `OKCancelPrompt`: OK sets the result to the text, Cancel to `default` (null). */
  datatype TextReaction = OKSetsText | CancelSetsNull

  datatype OKPromptDialog = OKPromptDialog(question: string, prompt: Prompts.OKPrompt<SetText>, cell: Cell<string>)

  datatype OKCancelPromptDialog = OKCancelPromptDialog(question: string, prompt: Prompts.OKCancelPrompt<TextReaction>, cell: Cell<Option<string>>)

  function OKPrompt(question: string, initialText: string): (d: OKPromptDialog)
    ensures d.cell.Unset?
    ensures d.prompt.text == initialText && d.prompt.okCallback == Some(SetResultToText)
  {
    OKPromptDialog(question, Prompts.NewOKPrompt(initialText, Some(SetResultToText)), Unset)
  }

  function OKCancelPrompt(question: string, initialText: string): (d: OKCancelPromptDialog)
    ensures d.cell.Unset?
    ensures d.prompt.text == initialText
    ensures d.prompt.okCallback == Some(OKSetsText) && d.prompt.cancelCallback == Some(CancelSetsNull)
  {
    OKCancelPromptDialog(question, Prompts.NewOKCancelPrompt(initialText, Some(OKSetsText), Some(CancelSetsNull)), Unset)
  }

  /** The user's edits to the text box, in order. */
  function EditOKPrompt(d: OKPromptDialog, edits: seq<string>): OKPromptDialog
  {
    d.(prompt := Prompts.EditAllOK(d.prompt, edits))
  }

  function EditOKCancelPrompt(d: OKCancelPromptDialog, edits: seq<string>): OKCancelPromptDialog
  {
    d.(prompt := Prompts.EditAllOKCancel(d.prompt, edits))
  }

  function ClickOKPromptOK(d: OKPromptDialog): Delivery<OKPromptDialog>
  {
    match Prompts.PressOK(d.prompt)
    case None => Delivered(d)
    case Some(fired) =>
      match SetResult(d.cell, fired.text)
      case Settled(c) => Delivered(d.(cell := c))
      case AlreadyCompleted(_) => Raised(d)
  }

  /** Settles the OK/Cancel prompt's cell for a fired reaction that was handed `text`. */
  function SettleText(d: OKCancelPromptDialog, fired: Option<Prompts.TextInvocation<TextReaction>>): Delivery<OKCancelPromptDialog>
  {
    match fired
    case None => Delivered(d)
    case Some(invocation) =>
      var v := if invocation.callback == OKSetsText then Some(invocation.text) else None;
      match SetResult(d.cell, v)
      case Settled(c) => Delivered(d.(cell := c))
      case AlreadyCompleted(_) => Raised(d)
  }

  function ClickOKCancelPromptOK(d: OKCancelPromptDialog): Delivery<OKCancelPromptDialog>
  {
    SettleText(d, Prompts.PressOKCancelOK(d.prompt))
  }

  function ClickOKCancelPromptCancel(d: OKCancelPromptDialog): Delivery<OKCancelPromptDialog>
  {
    SettleText(d, Prompts.PressOKCancelCancel(d.prompt))
  }

  /** `OKPrompt` resolves with the text as it is when OK is clicked; a second click raises and changes nothing. */
  lemma OKPromptYieldsCurrentText(question: string, initialText: string, edits: seq<string>)
    ensures var d := EditOKPrompt(OKPrompt(question, initialText), edits);
      && ClickOKPromptOK(d).Delivered?
      && Awaited(ClickOKPromptOK(d).dialog.cell) == Some(Prompts.LatestText(initialText, edits))
      && ClickOKPromptOK(ClickOKPromptOK(d).dialog) == Raised(ClickOKPromptOK(d).dialog)
  {
    Prompts.OKPromptSeesEdits(initialText, SetResultToText, edits);
  }

  /**
   `OKCancelPrompt` resolves with the current text on OK and with null on Cancel;
   whichever comes second raises and leaves the result as the first set it.
   */
  lemma OKCancelPromptYields(question: string, initialText: string, edits: seq<string>)
    ensures var d := EditOKCancelPrompt(OKCancelPrompt(question, initialText), edits);
      && Awaited(ClickOKCancelPromptOK(d).dialog.cell) == Some(Some(Prompts.LatestText(initialText, edits)))
      && Awaited(ClickOKCancelPromptCancel(d).dialog.cell) == Some(None)
      && ClickOKCancelPromptCancel(ClickOKCancelPromptOK(d).dialog) == Raised(ClickOKCancelPromptOK(d).dialog)
      && ClickOKCancelPromptOK(ClickOKCancelPromptCancel(d).dialog) == Raised(ClickOKCancelPromptCancel(d).dialog)
  {
    Prompts.OKCancelPromptSeesEdits(initialText, OKSetsText, CancelSetsNull, edits);
  }

  // ---------------------------------------------------------------------------
  // Selection prompts

  /** Reactions of a selection prompt: the caller's own option callback (opaque here), or the submit signal `_ => tcs.SetResult()`. */
  datatype SelectReaction = CallerOptionCallback | SubmitSignal

  /**
   `answer` is what the awaiting caller returns. `GetSelectedRadioButton()?.Text` is
   evaluated eagerly when the continuation resumes, so it is taken when the submit
   signal settles.
   */
  datatype SelectOneDialog = SelectOneDialog(question: string, prompt: Prompts.SelectOneAnswerPrompt<SelectReaction>,
                                             signal: Cell<()>, answer: Option<Option<string>>)

  /**
   The multi-select dialog keeps no answer of its own: the caller gets the deferred
   `GetSelectedCheckBoxes().Select(x => x.Text)`, which reads the boxes again whenever
   it is enumerated (see `Answer`).
   */
  datatype SelectMultipleDialog = SelectMultipleDialog(question: string, prompt: Prompts.SelectMultipleAnswersPrompt<SelectReaction>,
                                                       signal: Cell<()>)

  function CallerCallback(hasOptionCallback: bool): Option<SelectReaction>
  {
    if hasOptionCallback then Some(CallerOptionCallback) else None
  }

  /** `GetSelectedRadioButton()?.Text`. */
  function SelectedText(p: Prompts.SelectOneAnswerPrompt<SelectReaction>): Option<string>
  {
    match Prompts.GetSelectedRadioButton(p.radios)
    case None => None
    case Some(radio) => Some(radio.text)
  }

  /** `GetSelectedCheckBoxes().Select(x => x.Text)`. */
  function SelectedTexts(p: Prompts.SelectMultipleAnswersPrompt<SelectReaction>): seq<string>
  {
    Prompts.Texts(Prompts.GetSelectedCheckBoxes(p.boxes))
  }

  /** The radio group `group` stands for the fresh name `SelectOneAnswerPrompt` draws from `Guid.NewGuid()`. */
  function SelectOneAnswerPrompt(question: string, group: GroupId, hasOptionCallback: bool,
                                 defaultValue: Option<string>, options: seq<string>): (d: SelectOneDialog)
    ensures d.signal.Unset? && d.answer.None?
    ensures d.prompt == Prompts.NewSelectOneAnswerPrompt(group, CallerCallback(hasOptionCallback), Some(SubmitSignal), defaultValue, options)
  {
    SelectOneDialog(question, Prompts.NewSelectOneAnswerPrompt(group, CallerCallback(hasOptionCallback), Some(SubmitSignal), defaultValue, options), Unset, None)
  }

  function SelectMultipleAnswersPrompt(question: string, hasOptionCallback: bool, options: seq<string>): (d: SelectMultipleDialog)
    ensures d.signal.Unset? && Answer(d).None?
    ensures d.prompt == Prompts.NewSelectMultipleAnswersPrompt(CallerCallback(hasOptionCallback), Some(SubmitSignal), options)
  {
    SelectMultipleDialog(question, Prompts.NewSelectMultipleAnswersPrompt(CallerCallback(hasOptionCallback), Some(SubmitSignal), options), Unset)
  }

  /** The user selects option `i` (the host's radio-group behaviour clears the others). */
  function ChooseOption(d: SelectOneDialog, i: nat): SelectOneDialog
    requires i < |d.prompt.radios|
  {
    d.(prompt := Prompts.Choose(d.prompt, i))
  }

  /** The user selects each option listed in `choices`, in order. */
  function ChooseOptions(d: SelectOneDialog, choices: seq<nat>): (r: SelectOneDialog)
    requires forall k :: 0 <= k < |choices| ==> choices[k] < |d.prompt.radios|
    ensures r.signal == d.signal && r.answer == d.answer && r.prompt.submit == d.prompt.submit
    ensures |r.prompt.radios| == |d.prompt.radios|
    ensures forall j :: 0 <= j < |d.prompt.radios| ==>
      r.prompt.radios[j].text == d.prompt.radios[j].text && r.prompt.radios[j].group == d.prompt.radios[j].group
    decreases |choices|
  {
    if |choices| == 0 then d
    else ChooseOptions(ChooseOption(d, choices[0]), choices[1..])
  }

  /** The user clicks each check box listed in `toggles`, in order. */
  function ToggleOptions(d: SelectMultipleDialog, toggles: seq<nat>): (r: SelectMultipleDialog)
    requires forall k :: 0 <= k < |toggles| ==> toggles[k] < |d.prompt.boxes|
    ensures r.signal == d.signal && r.prompt.submit == d.prompt.submit
    ensures Prompts.Texts(r.prompt.boxes) == Prompts.Texts(d.prompt.boxes)
    decreases |toggles|
  {
    if |toggles| == 0 then d
    else ToggleOptions(d.(prompt := Prompts.Toggle(d.prompt, toggles[0])), toggles[1..])
  }

  /**
   The submit button: its reaction `_ => tcs.SetResult()` releases the awaiting caller,
   which then evaluates `GetSelectedRadioButton()?.Text` at once. A second submit raises.
   */
  function SubmitOne(d: SelectOneDialog): (r: Delivery<SelectOneDialog>)
    ensures d.signal.Unset? && d.prompt.submit.onClick == Some(SubmitSignal) ==>
      && r.Delivered? && r.dialog.prompt == d.prompt && r.dialog.signal.Set?
      && r.dialog.answer == Some(SelectedText(d.prompt))
      && (r.dialog.answer == Some(None) <==> forall i :: 0 <= i < |d.prompt.radios| ==> !d.prompt.radios[i].checked)
    ensures d.signal.Set? && d.prompt.submit.onClick == Some(SubmitSignal) ==> r == Raised(d)
  {
    match d.prompt.submit.onClick
    case Some(SubmitSignal) =>
      (match SetResult(d.signal, ())
       case Settled(c) => Delivered(d.(signal := c, answer := Some(SelectedText(d.prompt))))
       case AlreadyCompleted(_) => Raised(d))
    case _ => Delivered(d)
  }

  /**
   What the multi-select caller holds: nothing while it awaits, and once the signal has
   settled, the labels of the boxes checked at the moment it enumerates the sequence.
   */
  function Answer(d: SelectMultipleDialog): Option<seq<string>>
  {
    if d.signal.Set? then Some(SelectedTexts(d.prompt)) else None
  }

  function SubmitMultiple(d: SelectMultipleDialog): Delivery<SelectMultipleDialog>
  {
    match d.prompt.submit.onClick
    case Some(SubmitSignal) =>
      (match SetResult(d.signal, ())
       case Settled(c) => Delivered(d.(signal := c))
       case AlreadyCompleted(_) => Raised(d))
    case _ => Delivered(d)
  }

  /**
   Submitting without a choice yields the default's label when an option carries it,
   and null otherwise; a second submit raises and the answer stays.
   */
  lemma SelectOneYieldsDefault(question: string, group: GroupId, hasOptionCallback: bool,
                               defaultValue: Option<string>, options: seq<string>)
    ensures var d := SelectOneAnswerPrompt(question, group, hasOptionCallback, defaultValue, options);
      var s := SubmitOne(d);
      && s.Delivered?
      && s.dialog.answer == Some(if defaultValue.Some? && defaultValue.value in options then defaultValue else None)
      && SubmitOne(s.dialog) == Raised(s.dialog)
  {
  }

  /** Choosing option `i` and submitting yields that option's label; a second submit raises and the answer stays. */
  lemma SelectOneYieldsChoice(question: string, group: GroupId, hasOptionCallback: bool,
                              defaultValue: Option<string>, options: seq<string>, i: nat)
    requires i < |options|
    ensures var d := SelectOneAnswerPrompt(question, group, hasOptionCallback, defaultValue, options);
      var s := SubmitOne(ChooseOption(d, i));
      && s.Delivered?
      && s.dialog.answer == Some(Some(options[i]))
      && SubmitOne(s.dialog) == Raised(s.dialog)
  {
  }

  /**
   After any non-empty run of choices in a prompt whose radios share one group, the
   query returns the last option chosen, and submitting yields its label.
   */
  lemma {:induction false} SelectOneYieldsLastChoice(d: SelectOneDialog, group: GroupId, choices: seq<nat>)
    requires Prompts.SharesGroup(d.prompt.radios, group)
    requires |choices| > 0
    requires forall k :: 0 <= k < |choices| ==> choices[k] < |d.prompt.radios|
    ensures SelectedText(ChooseOptions(d, choices).prompt) == Some(d.prompt.radios[choices[|choices| - 1]].text)
    ensures d.signal.Unset? && d.prompt.submit.onClick == Some(SubmitSignal) ==>
      SubmitOne(ChooseOptions(d, choices)).dialog.answer == Some(Some(d.prompt.radios[choices[|choices| - 1]].text))
    decreases |choices|
  {
    var d1 := ChooseOption(d, choices[0]);
    if |choices| == 1 {
      Prompts.ChooseIsSelected(d.prompt, group, choices[0]);
      assert ChooseOptions(d, choices) == ChooseOptions(d1, []) == d1;
    } else {
      assert Prompts.SharesGroup(d1.prompt.radios, group);
      SelectOneYieldsLastChoice(d1, group, choices[1..]);
      assert ChooseOptions(d, choices) == ChooseOptions(d1, choices[1..]);
      assert choices[1..][|choices[1..]| - 1] == choices[|choices| - 1];
    }
  }

  /** Submitting with nothing checked yields the empty sequence. */
  lemma SelectMultipleYieldsEmptyInitially(question: string, hasOptionCallback: bool, options: seq<string>)
    ensures Answer(SubmitMultiple(SelectMultipleAnswersPrompt(question, hasOptionCallback, options)).dialog) == Some([])
  {
    var d := SelectMultipleAnswersPrompt(question, hasOptionCallback, options);
    Prompts.NoneCheckedSelectsNothing(d.prompt.boxes);
  }

  /**
   Submitting a multi-select dialog whose signal is still unset releases the caller with
   the labels of the checked boxes; a second submit raises and changes nothing.
   */
  lemma SubmitMultipleYieldsChecked(d: SelectMultipleDialog)
    requires d.signal.Unset? && d.prompt.submit.onClick == Some(SubmitSignal)
    ensures SubmitMultiple(d).Delivered?
    ensures SubmitMultiple(d).dialog.prompt == d.prompt
    ensures Answer(SubmitMultiple(d).dialog) == Some(Prompts.Texts(Prompts.GetSelectedCheckBoxes(d.prompt.boxes)))
    ensures SubmitMultiple(SubmitMultiple(d).dialog) == Raised(SubmitMultiple(d).dialog)
  {
  }

  /**
   The answer stays within the options: in any dialog whose boxes are labelled with the
   options (as construction makes them, and as toggling keeps them), the labels of the
   checked boxes form a subsequence of the options.
   */
  lemma SelectMultipleAnswerWithinOptions(d: SelectMultipleDialog, options: seq<string>)
    requires Prompts.Texts(d.prompt.boxes) == options
    ensures Prompts.IsSubsequence(SelectedTexts(d.prompt), options)
    ensures Answer(d).Some? ==> Prompts.IsSubsequence(Answer(d).value, options)
  {
    Prompts.SelectedTextsAreSubsequence(d.prompt.boxes);
  }

  /**
   The returned sequence is a live query: after submitting with nothing checked the
   caller sees no labels, and once the user ticks box `i` it sees exactly `options[i]`.
   */
  lemma AnswerFollowsLaterToggles(question: string, hasOptionCallback: bool, options: seq<string>, i: nat)
    requires i < |options|
    ensures var d := SubmitMultiple(SelectMultipleAnswersPrompt(question, hasOptionCallback, options)).dialog;
      && Answer(d) == Some([])
      && Answer(ToggleOptions(d, [i])) == Some([options[i]])
  {
    var d := SubmitMultiple(SelectMultipleAnswersPrompt(question, hasOptionCallback, options)).dialog;
    Prompts.NoneCheckedSelectsNothing(d.prompt.boxes);
    assert |d.prompt.boxes| == |Prompts.Texts(d.prompt.boxes)| == |options|;
    var t := ToggleOptions(d, [i]);
    var toggled := d.(prompt := Prompts.Toggle(d.prompt, i));
    assert [i][0] == i && [i][1..] == [];
    assert t == ToggleOptions(toggled, [i][1..]);
    assert ToggleOptions(toggled, []) == toggled;
    Prompts.OnlyOneCheckedSelectsIt(t.prompt.boxes, i);
    assert t.prompt.boxes[i].text == Prompts.Texts(t.prompt.boxes)[i] == options[i];
    assert Prompts.Texts([t.prompt.boxes[i]]) == [options[i]];
  }
}
