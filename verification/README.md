# LINQPadDialogs: the dialog core in Dafny

This project models the core of LINQPadDialogs, a small library of dialog building
blocks for LINQPad. The core has four parts:

- `DialogExtensions.JoinControls` puts a separator between adjacent controls (`join_controls.dfy`, module `DialogExtensions`).
- The `ButtonArray` family gives each dialog kind a fixed, ordered row of captioned buttons, each with its own reaction (`button_array.dfy`, module `ButtonArrays`).
- The prompt widgets are `OKPrompt`, `OKCancelPrompt`, `SelectOneAnswerPrompt` and `SelectMultipleAnswersPrompt`. Each is built from its inputs, changed by the user's edits and clicks, and queried after submission (`prompt.dfy`, module `Prompts`).
- The static `Dialog` methods form the completion bridge. Each creates one `TaskCompletionSource` and wires every terminal button to a `SetResult` on it. The selection dialogs instead settle a unit signal and then hand back a query of the prompt (`completion.dfy`, module `Completion`, and `dialog.dfy`, module `Dialogs`).

LINQPad's controls become immutable records in `controls.dfy`. A button is a caption
key plus an optional reaction. A radio button or check box is a label, a checked flag
and an optional reaction. A text box is its current text. A reaction is an opaque token
of a type parameter `C`. The dialogs pick that type to name what each reaction does.
Examples are `SetResultTo(value)`, "set the result to the text box's text", the submit
signal, and the caller's own option callback. A null default value, a null callback or a null result becomes `None` of `Option`.

The result cell follows the code, which calls `SetResult` and not `TrySetResult`. The
cell is `Unset | Set(v)`. The first `SetResult` stores its value. Any later one raises
`InvalidOperationException` (`AlreadyCompleted`, and `Raised` at the dialog level) and
leaves the value unchanged. User events are functions from one dialog state to the
next: a click, a text edit, choosing a radio button, toggling a check box.

Some behaviours of the code are worth stating plainly:

- `SetResult` raises on a second call; the stored value is kept.
- A radio button starts checked when its option equals `defaultValue`, so a default that appears twice among the options checks several (`Prompts.NewSelectOneAnswerPrompt`).
- A button array places its buttons in a horizontal `StackPanel` with no separators between them. `JoinControls` is not called by the button arrays, the prompts or the dialogs, so its interleaving is modelled on its own.
- The select-one dialog returns `GetSelectedRadioButton()?.Text`, evaluated when the awaiting call resumes. The select-multiple dialog returns the deferred `GetSelectedCheckBoxes().Select(x => x.Text)`, which reads the check boxes again each time the caller enumerates it, so ticks made after submitting still show (`Dialogs.Answer`, `Dialogs.AnswerFollowsLaterToggles`).
- `Dialog.RetryCancel` builds an `OKCancelButtonArray`, not a `RetryCancelButtonArray`. Its buttons are captioned OK and Cancel. The retry value sits on the first button and the cancel value on the second (`Dialogs.RetryCancel`).

## Model

| member | source | states |
|---|---|---|
| DialogExtensions.JoinControls | src/LINQPadDialog.Shared/DialogExtensions.cs:9-18 | a null or empty item sequence yields the empty sequence; n ≥ 1 items yield 2n − 1 elements |
| DialogExtensions.WithSeparatorsAt | src/LINQPadDialog.Shared/DialogExtensions.cs:16 | the `SelectMany` step puts item k at position 2k and a separator right after it |
| DialogExtensions.JoinControlsPositions | src/LINQPadDialog.Shared/DialogExtensions.cs:14-17 | item k sits at position 2k in original order, and every odd position holds the separator |
| DialogExtensions.JoinControlsEnds | src/LINQPadDialog.Shared/DialogExtensions.cs:15-17 | no separator leads or trails: the output starts with the first item and ends with the last |
| DialogExtensions.JoinControlsSingle | src/LINQPadDialog.Shared/DialogExtensions.cs:15-17 | a single item yields exactly that item, with zero separators |
| DialogExtensions.JoinControlsRoundTrip | src/LINQPadDialog.Shared/DialogExtensions.cs:14-17 | taking the even positions of the output recovers the input items |
| DialogExtensions.JoinControlsCharacterized | src/LINQPadDialog.Shared/DialogExtensions.cs:14-17 | a sequence has the position properties exactly when it equals the join, in both directions |
| ButtonArrays.RenderPlacesButtons | src/LINQPadDialog.Shared/ButtonArray.cs:17-19 | reading the buttons back out of the rendered tree (one div, one horizontal panel) gives exactly the given buttons in order |
| ButtonArrays.Press | src/LINQPadDialog.Shared/ButtonArray.cs:17-19 | clicking the i-th button shown in the rendered panel fires that button's own callback |
| ButtonArrays.PressInArgumentOrder | src/LINQPadDialog.Shared/ButtonArray.cs:33-158 | in every button array kind, clicking position i fires the constructor's i-th callback, under the caption that kind puts at position i |
| ButtonArrays.AbortRetryIgnoreButtonArray | src/LINQPadDialog.Shared/ButtonArray.cs:33-40 | captions [Abort, Retry, Ignore], with callbacks in the same order |
| ButtonArrays.CancelTryContinueButtonArray | src/LINQPadDialog.Shared/ButtonArray.cs:56-63 | captions [Cancel, Try, Continue], with callbacks in the same order |
| ButtonArrays.OKButtonArray | src/LINQPadDialog.Shared/ButtonArray.cs:76-79 | exactly one button, OK, carrying the OK callback |
| ButtonArrays.OKCancelButtonArray | src/LINQPadDialog.Shared/ButtonArray.cs:93-98 | captions [OK, Cancel], with callbacks in the same order |
| ButtonArrays.RetryCancelButtonArray | src/LINQPadDialog.Shared/ButtonArray.cs:112-117 | captions [Retry, Cancel], with callbacks in the same order |
| ButtonArrays.YesNoButtonArray | src/LINQPadDialog.Shared/ButtonArray.cs:131-136 | captions [Yes, No], with callbacks in the same order |
| ButtonArrays.YesNoCancelButtonArray | src/LINQPadDialog.Shared/ButtonArray.cs:151-158 | captions [Yes, No, Cancel], with callbacks in the same order |
| Prompts.InvokeWithTextBox | src/LINQPadDialog.Shared/Prompt.cs:23 | a prompt button fires its callback exactly when one is given, and hands it the text box as it is at click time |
| Prompts.TypeAllShowsLatest | src/LINQPadDialog.Shared/Prompt.cs:22-23 | after a run of edits the text box holds the last edit, or the initial text when there was none |
| Prompts.OKPromptSeesEdits | src/LINQPadDialog.Shared/Prompt.cs:20-25 | the children are [text box, panel(OK)], and after any edits OK hands its callback the last-edited text, not the initial text |
| Prompts.OKCancelPromptSeesEdits | src/LINQPadDialog.Shared/Prompt.cs:43-49 | the children are [text box, panel(OK, Cancel)], and after any edits OK and Cancel both hand their callbacks the same current text |
| Prompts.NewSelectOneAnswerPrompt | src/LINQPadDialog.Shared/Prompt.cs:69-73 | one radio button per option, in order, all in one group; a radio starts checked iff its option equals the default; a null default, or one that matches no option, checks none; the submit button is Select |
| Prompts.SelectOneLayout | src/LINQPadDialog.Shared/Prompt.cs:72-76 | the panel holds the radios in option order followed by exactly one submit button; zero options leave only the button |
| Prompts.GetSelectedRadioButton | src/LINQPadDialog.Shared/Prompt.cs:87 | null iff no radio is checked; otherwise the radio at the first checked position |
| Prompts.InitialSelection | src/LINQPadDialog.Shared/Prompt.cs:71-87 | before any choice the query is null iff the default is null or matches no option string; otherwise it is a checked radio labelled with the default |
| Prompts.ChooseIsSelected | src/LINQPadDialog.Shared/Prompt.cs:87 | after the user chooses radio i in a prompt whose radios share a group, the query returns radio i |
| Prompts.NewSelectMultipleAnswersPrompt | src/LINQPadDialog.Shared/Prompt.cs:101-104 | one check box per option, labels equal to the options in order, all unchecked; the submit button is Select |
| Prompts.SelectMultipleLayout | src/LINQPadDialog.Shared/Prompt.cs:103-107 | the panel holds the check boxes in option order followed by exactly one submit button |
| Prompts.GetSelectedCheckBoxes | src/LINQPadDialog.Shared/Prompt.cs:118 | the result contains only checked boxes and is no longer than the input |
| Prompts.SelectedListsCheckedByRank | src/LINQPadDialog.Shared/Prompt.cs:118 | the result is as long as the number of checked boxes, and each checked box appears at its rank (the number of checked boxes before it), so order is kept and nothing is dropped |
| Prompts.ListsCheckedByRankUnique | src/LINQPadDialog.Shared/Prompt.cs:118 | any sequence that lists the checked boxes by rank equals the query's result (the converse direction) |
| Prompts.SelectedIsSubsequence | src/LINQPadDialog.Shared/Prompt.cs:118 | the checked boxes form a subsequence of all the boxes |
| Prompts.SelectedTextsAreSubsequence | src/LINQPadDialog.Shared/Prompt.cs:118 | the labels of the checked boxes form a subsequence of all the labels |
| Completion.SetResult | src/LINQPadDialog.Shared/Dialog.cs:14-15 | the first settlement stores its value; a settlement of a set cell raises and leaves the cell unchanged |
| Completion.Awaited | src/LINQPadDialog.Shared/Dialog.cs:16 | the awaiting caller has a value exactly when the cell is set, and that value is the stored one |
| Completion.CompletedCellIsStable | src/LINQPadDialog.Shared/Dialog.cs:14-16 | once the cell is set, any number of further settlements all raise and keep its value |
| Completion.FirstSettlementWins | src/LINQPadDialog.Shared/Dialog.cs:14-16 | from an unset cell, the first of any run of settlements decides the awaited value, and each later one raises |
| Dialogs.Click | src/LINQPadDialog.Shared/Dialog.cs:15 | a click leaves the dialog's buttons and question unchanged; only the cell can change |
| Dialogs.ClickResolves | src/LINQPadDialog.Shared/Dialog.cs:12-66 | in a fresh fixed-choice dialog, clicking button i resolves the awaited value to the value given for button i |
| Dialogs.FirstClickWins | src/LINQPadDialog.Shared/Dialog.cs:14-16 | for any run of clicks, the first click's value is the result, and every later click raises |
| Dialogs.LaterClicksRaise | src/LINQPadDialog.Shared/Dialog.cs:15 | once the cell is set, every further click raises and changes nothing |
| Dialogs.AbortRetryIgnore | src/LINQPadDialog.Shared/Dialog.cs:12-17 | a fresh cell; buttons [Abort, Retry, Ignore] wired to the abort, retry and ignore values |
| Dialogs.CancelTryContinue | src/LINQPadDialog.Shared/Dialog.cs:19-24 | a fresh cell; buttons [Cancel, Try, Continue] wired to the cancel, try and continue values |
| Dialogs.OK | src/LINQPadDialog.Shared/Dialog.cs:26-31 | a fresh cell; one OK button wired to the OK value |
| Dialogs.OKUnit | src/LINQPadDialog.Shared/Dialog.cs:33-38 | a fresh cell; clicking the only button, OK, resolves with the unit value |
| Dialogs.OKCancel | src/LINQPadDialog.Shared/Dialog.cs:40-45 | a fresh cell; buttons [OK, Cancel] wired to the OK and cancel values |
| Dialogs.RetryCancel | src/LINQPadDialog.Shared/Dialog.cs:47-52 | a fresh cell; the OK/Cancel layout (not the Retry/Cancel one), with the retry value on the first button and the cancel value on the second |
| Dialogs.YesNo | src/LINQPadDialog.Shared/Dialog.cs:54-59 | a fresh cell; buttons [Yes, No] wired to the yes and no values |
| Dialogs.YesNoCancel | src/LINQPadDialog.Shared/Dialog.cs:61-66 | a fresh cell; buttons [Yes, No, Cancel] wired to the yes, no and cancel values |
| Dialogs.OKPrompt | src/LINQPadDialog.Shared/Dialog.cs:68-72 | a fresh cell; a text box holding the initial text, and an OK reaction that sets the result to the text |
| Dialogs.OKCancelPrompt | src/LINQPadDialog.Shared/Dialog.cs:76-81 | a fresh cell; OK sets the result to the text and Cancel sets it to null |
| Dialogs.OKPromptYieldsCurrentText | src/LINQPadDialog.Shared/Dialog.cs:68-74 | after any edits, OK resolves with the text as it is at click time; a second click raises |
| Dialogs.OKCancelPromptYields | src/LINQPadDialog.Shared/Dialog.cs:76-83 | OK resolves with the current text and Cancel with null; whichever click comes second raises and leaves the dialog, and so the result, unchanged |
| Dialogs.SelectOneAnswerPrompt | src/LINQPadDialog.Shared/Dialog.cs:85-92 | a fresh signal and no answer yet; the prompt is built from the options and the default, with the submit button wired to the signal |
| Dialogs.SelectMultipleAnswersPrompt | src/LINQPadDialog.Shared/Dialog.cs:97-103 | a fresh signal, so the caller has no answer yet; the prompt is built from the options, with the submit button wired to the signal |
| Dialogs.SelectOneYieldsDefault | src/LINQPadDialog.Shared/Dialog.cs:85-94 | submitting without a choice yields the default when some option matches it, else null; a second submit raises and keeps the answer |
| Dialogs.SelectOneYieldsChoice | src/LINQPadDialog.Shared/Dialog.cs:85-94 | choosing option i and then submitting yields option i's label; a second submit raises and keeps the answer |
| Dialogs.SubmitOne | src/LINQPadDialog.Shared/Dialog.cs:85-94 | in any prompt state, the first submit releases the caller with the label of the first checked radio, or null exactly when none is checked, leaving the prompt as it is; a submit after that raises and changes nothing |
| Dialogs.SelectOneYieldsLastChoice | src/LINQPadDialog.Shared/Dialog.cs:85-94 | after any non-empty run of choices within one radio group, the query returns the last option chosen and submitting yields its label |
| Dialogs.SelectMultipleYieldsEmptyInitially | src/LINQPadDialog.Shared/Dialog.cs:97-105 | submitting with nothing checked gives the caller the empty sequence |
| Prompts.NoneCheckedSelectsNothing | src/LINQPadDialog.Shared/Prompt.cs:118 | with no box checked, the query is empty |
| Prompts.OnlyOneCheckedSelectsIt | src/LINQPadDialog.Shared/Prompt.cs:118 | with exactly one box checked, the query is that box alone |
| Dialogs.SubmitMultipleYieldsChecked | src/LINQPadDialog.Shared/Dialog.cs:97-105 | the first submit releases the caller, whose sequence reads the labels of the checked boxes in option order; it leaves the boxes as they are, and a second submit raises and changes nothing |
| Dialogs.SelectMultipleAnswerWithinOptions | src/LINQPadDialog.Shared/Dialog.cs:97-105 | in a dialog whose boxes carry the options as labels, the caller's sequence, whenever it is read, is a subsequence of the options |
| Dialogs.AnswerFollowsLaterToggles | src/LINQPadDialog.Shared/Dialog.cs:104-105 | the returned sequence is deferred: after submitting with nothing checked it is empty, and after the user then ticks box i it reads exactly [options[i]] |

## Left out

- The host's `.Dump(question)` rendering and the internals of LINQPad's `Div`, `StackPanel`, `Button`, `TextBox`, `RadioButton` and `CheckBox` are external. Controls are records, the displayed question is a field of the dialog, and the widget tree is a `Node` value.
- Radio mutual exclusion on user clicks lives inside LINQPad's `RadioButton`, which is not part of this model. `Prompts.Choose` states it as an assumption about the host: choosing a radio button checks it and clears the others in its group.
- Check-box toggling is likewise host behaviour. `Prompts.Toggle` and `Dialogs.ToggleOptions` assume that a click flips that one box and leaves the others alone.
- `async`/`await`, `ConfigureAwait` and threading are not modelled. Events are delivered one at a time. The select-one answer is taken when the submit signal settles, which is when the awaiting continuation resumes and evaluates it. The select-multiple answer is not stored: `Dialogs.Answer` reads the prompt's current boxes whenever the caller looks.
- `Guid.NewGuid()` group naming becomes a `GroupId` parameter that the caller treats as fresh.
- `UIStringResources` lookup becomes the abstract `LabelKey` captions.
- Caller-supplied option callbacks are opaque code. The model records only whether one is wired to each radio button or check box. It does not model the callback running when an option changes, or a caller's callback throwing.
- The prompts' OK and Cancel buttons hold a wrapper lambda that calls the caller's callback with the text box. In the model the button carries the caller's callback directly, and `PressOK`/`PressOKCancelOK`/`PressOKCancelCancel` hand it the text.
- Prompts.NewSelectOneAnswerPrompt, Prompts.NewSelectMultipleAnswersPrompt, Dialogs.SelectOneAnswerPrompt and Dialogs.SelectMultipleAnswersPrompt take the options as a sequence of strings, so neither the options array nor an option can be null. In the code a null `options` array makes `options.Select` throw `ArgumentNullException` (`Prompt.cs:72`, `Prompt.cs:103`). A null option is not rejected either: `string.Equals(null, null)` holds, so a null option with a null default starts checked and is what `GetSelectedRadioButton()` returns.
- Password prompts and password encoding are out of scope.
- Keyboard focus is out of scope: it has no effect on which value a dialog returns.
