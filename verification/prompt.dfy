/**
 The prompt widgets: a text box with OK (and Cancel) buttons, and the select-one and
 select-multiple prompts, whose radio buttons or check boxes are followed by one
 submit button and are queried after submission.
 */
module Prompts {
  import opened Options
  import opened Controls

  /** A prompt button's reaction firing: the callback, handed the shared text box, whose text is `text`. */
  datatype TextInvocation<C> = TextInvocation(callback: C, text: string)

  /** The text box's current text, and the OK reaction. */
  datatype OKPrompt<C> = OKPrompt(text: string, okCallback: Option<C>)

  /** The text box's current text, and the OK and Cancel reactions. */
  datatype OKCancelPrompt<C> = OKCancelPrompt(text: string, okCallback: Option<C>, cancelCallback: Option<C>)

  function NewOKPrompt<C>(initialText: string, okCallback: Option<C>): (p: OKPrompt<C>)
    ensures p.text == initialText
  {
    OKPrompt(initialText, okCallback)
  }

  function NewOKCancelPrompt<C>(initialText: string, okCallback: Option<C>, cancelCallback: Option<C>): (p: OKCancelPrompt<C>)
    ensures p.text == initialText
  {
    OKCancelPrompt(initialText, okCallback, cancelCallback)
  }

  /**
   The rendered children: the text box, then a horizontal panel with the OK button.
   The button forwards to the OK reaction, handing it the text box rather than itself.
   */
  function OKPromptChildren<C>(p: OKPrompt<C>): seq<Node<C>>
  {
    [TextBoxNode(p.text), StackPanel(true, [ButtonNode(Button(ButtonOK, p.okCallback))])]
  }

  /** The rendered children: the text box, then a horizontal panel with OK and Cancel. */
  function OKCancelPromptChildren<C>(p: OKCancelPrompt<C>): seq<Node<C>>
  {
    [TextBoxNode(p.text),
     StackPanel(true, [ButtonNode(Button(ButtonOK, p.okCallback)), ButtonNode(Button(ButtonCancel, p.cancelCallback))])]
  }

  /**
   What a prompt button's click does: `callback?.Invoke(_textBox)`. The callback, when
   given, fires once and receives the text box as it is at click time.
   */
  function InvokeWithTextBox<C>(callback: Option<C>, text: string): (fired: Option<TextInvocation<C>>)
    ensures fired.Some? <==> callback.Some?
    ensures fired.Some? ==> fired.value.callback == callback.value && fired.value.text == text
  {
    match callback
    case None => None
    case Some(cb) => Some(TextInvocation(cb, text))
  }

  /** Clicking OK. */
  function PressOK<C>(p: OKPrompt<C>): Option<TextInvocation<C>>
  {
    InvokeWithTextBox(p.okCallback, p.text)
  }

  function PressOKCancelOK<C>(p: OKCancelPrompt<C>): Option<TextInvocation<C>>
  {
    InvokeWithTextBox(p.okCallback, p.text)
  }

  function PressOKCancelCancel<C>(p: OKCancelPrompt<C>): Option<TextInvocation<C>>
  {
    InvokeWithTextBox(p.cancelCallback, p.text)
  }

  /** The text box after a run of user edits, each replacing its contents, applied in order. */
  function TypeAll(text: string, edits: seq<string>): string
    decreases |edits|
  {
    if |edits| == 0 then text else TypeAll(edits[0], edits[1..])
  }

  /** Typing into either prompt changes its text box and nothing else. */
  function EditAllOK<C>(p: OKPrompt<C>, edits: seq<string>): OKPrompt<C>
  {
    p.(text := TypeAll(p.text, edits))
  }

  function EditAllOKCancel<C>(p: OKCancelPrompt<C>, edits: seq<string>): OKCancelPrompt<C>
  {
    p.(text := TypeAll(p.text, edits))
  }

  /** The text the box shows after `edits`: the last edit, or the initial text when there was none. */
  function LatestText(initialText: string, edits: seq<string>): string
  {
    if |edits| == 0 then initialText else edits[|edits| - 1]
  }

  /** A run of edits leaves the last one in the box, or the initial text when there was none. */
  lemma {:induction false} TypeAllShowsLatest(text: string, edits: seq<string>)
    ensures TypeAll(text, edits) == LatestText(text, edits)
    decreases |edits|
  {
    if |edits| > 0 {
      TypeAllShowsLatest(edits[0], edits[1..]);
      assert LatestText(edits[0], edits[1..]) == LatestText(text, edits);
    }
  }

  /** OK hands its reaction the text as last edited, not the initial text; the layout is [text box, panel(OK)]. */
  lemma OKPromptSeesEdits<C>(initialText: string, okCallback: C, edits: seq<string>)
    ensures PressOK(EditAllOK(NewOKPrompt(initialText, Some(okCallback)), edits))
         == Some(TextInvocation(okCallback, LatestText(initialText, edits)))
    ensures OKPromptChildren(EditAllOK(NewOKPrompt(initialText, Some(okCallback)), edits))
         == [TextBoxNode(LatestText(initialText, edits)), StackPanel(true, [ButtonNode(Button(ButtonOK, Some(okCallback)))])]
  {
    TypeAllShowsLatest(initialText, edits);
  }

  /**
   OK and Cancel both hand their reactions the same text box, holding the text as last
   edited; the layout is [text box, panel(OK, Cancel)].
   */
  lemma OKCancelPromptSeesEdits<C>(initialText: string, okCallback: C, cancelCallback: C, edits: seq<string>)
    ensures PressOKCancelOK(EditAllOKCancel(NewOKCancelPrompt(initialText, Some(okCallback), Some(cancelCallback)), edits))
         == Some(TextInvocation(okCallback, LatestText(initialText, edits)))
    ensures PressOKCancelCancel(EditAllOKCancel(NewOKCancelPrompt(initialText, Some(okCallback), Some(cancelCallback)), edits))
         == Some(TextInvocation(cancelCallback, LatestText(initialText, edits)))
    ensures OKCancelPromptChildren(EditAllOKCancel(NewOKCancelPrompt(initialText, Some(okCallback), Some(cancelCallback)), edits))
         == [TextBoxNode(LatestText(initialText, edits)),
             StackPanel(true, [ButtonNode(Button(ButtonOK, Some(okCallback))), ButtonNode(Button(ButtonCancel, Some(cancelCallback)))])]
  {
    TypeAllShowsLatest(initialText, edits);
  }

  // ---------------------------------------------------------------------------
  // Select one answer

  datatype SelectOneAnswerPrompt<C> = SelectOneAnswerPrompt(radios: seq<RadioButton<C>>, submit: Button<C>)

  ghost predicate SharesGroup<C>(radios: seq<RadioButton<C>>, group: GroupId)
  {
    forall i :: 0 <= i < |radios| ==> radios[i].group == group
  }

  /**
   One radio button per option, in option order, all in the fresh group `group`; a
   radio starts checked exactly when its option equals `defaultValue` (so a null or
   unmatched default checks none and a repeated one checks several); then the submit button.
   */
  function NewSelectOneAnswerPrompt<C>(group: GroupId, optionCallback: Option<C>, submitButtonCallback: Option<C>,
                                       defaultValue: Option<string>, options: seq<string>): (p: SelectOneAnswerPrompt<C>)
    ensures |p.radios| == |options|
    ensures SharesGroup(p.radios, group)
    ensures forall i :: 0 <= i < |options| ==> p.radios[i].text == options[i] && p.radios[i].onClick == optionCallback
    ensures forall i :: 0 <= i < |options| ==> (p.radios[i].checked <==> defaultValue == Some(options[i]))
    ensures defaultValue.None? || defaultValue.value !in options ==>
      forall i :: 0 <= i < |options| ==> !p.radios[i].checked
    ensures p.submit == Button(ButtonSelect, submitButtonCallback)
  {
    SelectOneAnswerPrompt(
      seq(|options|, i requires 0 <= i < |options| => RadioButton(group, options[i], defaultValue == Some(options[i]), optionCallback)),
      Button(ButtonSelect, submitButtonCallback))
  }

  /** The rendered children: a div holding one vertical panel of the radios followed by the submit button. */
  function SelectOneChildren<C>(p: SelectOneAnswerPrompt<C>): seq<Node<C>>
  {
    [StackPanel(false, RadioNodes(p.radios) + [ButtonNode(p.submit)])]
  }

  /** The panel holds the radios in order and then exactly one submit button; no options leaves only the button. */
  lemma SelectOneLayout<C>(group: GroupId, optionCallback: Option<C>, submitButtonCallback: Option<C>,
                           defaultValue: Option<string>, options: seq<string>)
    ensures var p := NewSelectOneAnswerPrompt(group, optionCallback, submitButtonCallback, defaultValue, options);
      var panel := SelectOneChildren(p)[0];
      && |panel.children| == |options| + 1
      && (forall i :: 0 <= i < |options| ==> panel.children[i].RadioNode? && panel.children[i].radio.text == options[i])
      && panel.children[|options|] == ButtonNode(Button(ButtonSelect, submitButtonCallback))
      && (options == [] ==> panel.children == [ButtonNode(Button(ButtonSelect, submitButtonCallback))])
  {
  }

  /** The position of the first checked radio at or after `from`, or `|radios|` when there is none. */
  function FirstCheckedFrom<C>(radios: seq<RadioButton<C>>, from: nat): (k: nat)
    requires from <= |radios|
    ensures from <= k <= |radios|
    ensures k < |radios| ==> radios[k].checked
    ensures forall j :: from <= j < k ==> !radios[j].checked
    decreases |radios| - from
  {
    if from == |radios| || radios[from].checked then from else FirstCheckedFrom(radios, from + 1)
  }

  /** `FirstOrDefault(x => x.Checked)`: the first checked radio in order, or null. */
  function GetSelectedRadioButton<C>(radios: seq<RadioButton<C>>): (r: Option<RadioButton<C>>)
    ensures r.None? <==> forall i :: 0 <= i < |radios| ==> !radios[i].checked
    ensures r.Some? ==> exists k :: 0 <= k < |radios| && radios[k] == r.value && FirstChecked(radios, k)
  {
    var k := FirstCheckedFrom(radios, 0);
    if k < |radios| then
      assert FirstChecked(radios, k);
      Some(radios[k])
    else None
  }

  /** Position `k` holds a checked radio and no earlier position does. */
  predicate FirstChecked<C>(radios: seq<RadioButton<C>>, k: int)
    requires 0 <= k < |radios|
  {
    radios[k].checked && forall j :: 0 <= j < k ==> !radios[j].checked
  }

  /**
   The host's radio-group behaviour, taken as an assumption about the control
   library: the user selecting radio `i` checks it and clears every other radio of its group.
   */
  function Choose<C>(p: SelectOneAnswerPrompt<C>, i: nat): (q: SelectOneAnswerPrompt<C>)
    requires i < |p.radios|
    ensures |q.radios| == |p.radios| && q.submit == p.submit
    ensures forall j :: 0 <= j < |p.radios| ==> q.radios[j].text == p.radios[j].text && q.radios[j].group == p.radios[j].group
  {
    var g := p.radios[i].group;
    p.(radios := seq(|p.radios|, j requires 0 <= j < |p.radios| =>
         if p.radios[j].group == g then p.radios[j].(checked := j == i) else p.radios[j]))
  }

  /** After a choice in a prompt whose radios share one group, the query returns the chosen radio. */
  lemma ChooseIsSelected<C>(p: SelectOneAnswerPrompt<C>, group: GroupId, i: nat)
    requires SharesGroup(p.radios, group)
    requires i < |p.radios|
    ensures GetSelectedRadioButton(Choose(p, i).radios) == Some(p.radios[i].(checked := true))
  {
  }

  /** Before any choice, the query returns the first radio labelled with the default, or null when none is. */
  lemma InitialSelection<C>(group: GroupId, optionCallback: Option<C>, submitButtonCallback: Option<C>,
                            defaultValue: Option<string>, options: seq<string>)
    ensures var p := NewSelectOneAnswerPrompt(group, optionCallback, submitButtonCallback, defaultValue, options);
      var r := GetSelectedRadioButton(p.radios);
      && (r.None? <==> defaultValue.None? || defaultValue.value !in options)
      && (r.Some? ==> r.value.text == defaultValue.value && r.value.checked)
  {
  }

  // ---------------------------------------------------------------------------
  // Select multiple answers

  datatype SelectMultipleAnswersPrompt<C> = SelectMultipleAnswersPrompt(boxes: seq<CheckBox<C>>, submit: Button<C>)

  /** One check box per option, in option order, all unchecked; then the submit button. */
  function NewSelectMultipleAnswersPrompt<C>(optionCallback: Option<C>, submitButtonCallback: Option<C>, options: seq<string>)
    : (p: SelectMultipleAnswersPrompt<C>)
    ensures Texts(p.boxes) == options
    ensures forall i :: 0 <= i < |p.boxes| ==> !p.boxes[i].checked && p.boxes[i].onClick == optionCallback
    ensures p.submit == Button(ButtonSelect, submitButtonCallback)
  {
    SelectMultipleAnswersPrompt(
      seq(|options|, i requires 0 <= i < |options| => CheckBox(options[i], false, optionCallback)),
      Button(ButtonSelect, submitButtonCallback))
  }

  /** The rendered children: a div holding one vertical panel of the boxes followed by the submit button. */
  function SelectMultipleChildren<C>(p: SelectMultipleAnswersPrompt<C>): seq<Node<C>>
  {
    [StackPanel(false, CheckBoxNodes(p.boxes) + [ButtonNode(p.submit)])]
  }

  lemma SelectMultipleLayout<C>(optionCallback: Option<C>, submitButtonCallback: Option<C>, options: seq<string>)
    ensures var p := NewSelectMultipleAnswersPrompt(optionCallback, submitButtonCallback, options);
      var panel := SelectMultipleChildren(p)[0];
      && |panel.children| == |options| + 1
      && (forall i :: 0 <= i < |options| ==> panel.children[i].CheckBoxNode? && panel.children[i].checkBox.text == options[i])
      && panel.children[|options|] == ButtonNode(Button(ButtonSelect, submitButtonCallback))
  {
  }

  /** The user clicks check box `i`: it flips, independently of every other box. */
  function Toggle<C>(p: SelectMultipleAnswersPrompt<C>, i: nat): (q: SelectMultipleAnswersPrompt<C>)
    requires i < |p.boxes|
    ensures |q.boxes| == |p.boxes| && q.submit == p.submit
    ensures q.boxes[i].checked == !p.boxes[i].checked
    ensures forall j :: 0 <= j < |p.boxes| && j != i ==> q.boxes[j] == p.boxes[j]
    ensures Texts(q.boxes) == Texts(p.boxes)
  {
    var q := p.(boxes := p.boxes[i := p.boxes[i].(checked := !p.boxes[i].checked)]);
    assert forall j :: 0 <= j < |p.boxes| ==> q.boxes[j].text == p.boxes[j].text;
    q
  }

  function Texts<C>(boxes: seq<CheckBox<C>>): (r: seq<string>)
    ensures |r| == |boxes|
    ensures forall i :: 0 <= i < |r| ==> r[i] == boxes[i].text
  {
    seq(|boxes|, i requires 0 <= i < |boxes| => boxes[i].text)
  }

  /** `Where(x => x.Checked)`: the checked boxes, in their original order. */
  function GetSelectedCheckBoxes<C>(boxes: seq<CheckBox<C>>): (r: seq<CheckBox<C>>)
    ensures |r| <= |boxes|
    ensures forall k :: 0 <= k < |r| ==> r[k].checked
  {
    if |boxes| == 0 then []
    else
      var rest := GetSelectedCheckBoxes(boxes[1..]);
      if boxes[0].checked then [boxes[0]] + rest else rest
  }

  /** `a` is `b` with some elements left out, the rest kept in order. */
  ghost predicate IsSubsequence<T>(a: seq<T>, b: seq<T>)
    decreases |b|
  {
    if |a| == 0 then true
    else if |b| == 0 then false
    else if a[0] == b[0] then IsSubsequence(a[1..], b[1..])
    else IsSubsequence(a, b[1..])
  }

  /** With no box checked, the query is empty. */
  lemma {:induction false} NoneCheckedSelectsNothing<C>(boxes: seq<CheckBox<C>>)
    requires forall i :: 0 <= i < |boxes| ==> !boxes[i].checked
    ensures GetSelectedCheckBoxes(boxes) == []
    decreases |boxes|
  {
    if |boxes| > 0 {
      NoneCheckedSelectsNothing(boxes[1..]);
    }
  }

  /** With exactly box `i` checked, the query is that box alone. */
  lemma {:induction false} OnlyOneCheckedSelectsIt<C>(boxes: seq<CheckBox<C>>, i: nat)
    requires i < |boxes| && boxes[i].checked
    requires forall j :: 0 <= j < |boxes| && j != i ==> !boxes[j].checked
    ensures GetSelectedCheckBoxes(boxes) == [boxes[i]]
    decreases |boxes|
  {
    if i == 0 {
      NoneCheckedSelectsNothing(boxes[1..]);
    } else {
      OnlyOneCheckedSelectsIt(boxes[1..], i - 1);
    }
  }

  /** The number of checked boxes. */
  function CountChecked<C>(boxes: seq<CheckBox<C>>): nat
    decreases |boxes|
  {
    if |boxes| == 0 then 0 else (if boxes[0].checked then 1 else 0) + CountChecked(boxes[1..])
  }

  /** The number of checked boxes before position `i`. */
  function Rank<C>(boxes: seq<CheckBox<C>>, i: nat): nat
    requires i <= |boxes|
  {
    CountChecked(boxes[..i])
  }

  /**
   Reference definition: `r` is as long as the number of checked boxes, and the box at
   each checked position sits in `r` at its rank, the number of checked boxes before it.
   */
  ghost predicate ListsCheckedByRank<C>(boxes: seq<CheckBox<C>>, r: seq<CheckBox<C>>)
  {
    && |r| == CountChecked(boxes)
    && forall i :: 0 <= i < |boxes| && boxes[i].checked ==> Rank(boxes, i) < |r| && r[Rank(boxes, i)] == boxes[i]
  }

  /** Ranks in `boxes` are ranks in its tail, moved up by one when the first box is checked. */
  lemma RankStep<C>(boxes: seq<CheckBox<C>>, i: nat)
    requires 1 <= i <= |boxes|
    ensures Rank(boxes, i) == (if boxes[0].checked then 1 else 0) + Rank(boxes[1..], i - 1)
  {
    assert boxes[..i][1..] == boxes[1..][..i - 1];
  }

  /** The query lists every checked box at its rank, and nothing else. */
  lemma {:induction false} SelectedListsCheckedByRank<C>(boxes: seq<CheckBox<C>>)
    ensures ListsCheckedByRank(boxes, GetSelectedCheckBoxes(boxes))
    decreases |boxes|
  {
    if |boxes| > 0 {
      var rest := GetSelectedCheckBoxes(boxes[1..]);
      var r := GetSelectedCheckBoxes(boxes);
      SelectedListsCheckedByRank(boxes[1..]);
      var shift := if boxes[0].checked then 1 else 0;
      assert r == if boxes[0].checked then [boxes[0]] + rest else rest;
      forall i | 0 <= i < |boxes| && boxes[i].checked
        ensures Rank(boxes, i) < |r| && r[Rank(boxes, i)] == boxes[i]
      {
        if i == 0 {
          assert boxes[..0] == [];
        } else {
          RankStep(boxes, i);
          assert boxes[1..][i - 1] == boxes[i];
        }
      }
    }
  }

  /** Only the query's own result lists the checked boxes by rank: the reference definition is unique. */
  lemma {:induction false} ListsCheckedByRankUnique<C>(boxes: seq<CheckBox<C>>, r: seq<CheckBox<C>>)
    requires ListsCheckedByRank(boxes, r)
    ensures r == GetSelectedCheckBoxes(boxes)
    decreases |boxes|
  {
    if |boxes| > 0 {
      var tail := boxes[1..];
      var r' := if boxes[0].checked then r[1..] else r;
      if boxes[0].checked {
        assert boxes[..0] == [];
        assert Rank(boxes, 0) == 0;
      }
      forall i | 0 <= i < |tail| && tail[i].checked
        ensures Rank(tail, i) < |r'| && r'[Rank(tail, i)] == tail[i]
      {
        RankStep(boxes, i + 1);
        assert boxes[i + 1] == tail[i];
      }
      ListsCheckedByRankUnique(tail, r');
      if boxes[0].checked {
        assert r == [r[0]] + r[1..];
      }
    }
  }

  /** The checked boxes form a subsequence of all boxes. */
  lemma {:induction false} SelectedIsSubsequence<C>(boxes: seq<CheckBox<C>>)
    ensures IsSubsequence(GetSelectedCheckBoxes(boxes), boxes)
    decreases |boxes|
  {
    if |boxes| > 0 {
      SelectedIsSubsequence(boxes[1..]);
      var rest := GetSelectedCheckBoxes(boxes[1..]);
      if boxes[0].checked {
        assert ([boxes[0]] + rest)[1..] == rest;
      } else if |rest| > 0 {
        assert rest[0] != boxes[0];
      }
    }
  }

  /** The labels of the checked boxes form a subsequence of all the labels. */
  lemma {:induction false} SelectedTextsAreSubsequence<C>(boxes: seq<CheckBox<C>>)
    ensures IsSubsequence(Texts(GetSelectedCheckBoxes(boxes)), Texts(boxes))
    decreases |boxes|
  {
    if |boxes| > 0 {
      SelectedTextsAreSubsequence(boxes[1..]);
      var rest := GetSelectedCheckBoxes(boxes[1..]);
      assert Texts(boxes)[1..] == Texts(boxes[1..]);
      if boxes[0].checked {
        assert Texts([boxes[0]] + rest)[1..] == Texts(rest);
      } else {
        SubsequenceConsRight(Texts(rest), Texts(boxes));
      }
    }
  }

  /** A subsequence of the tail of `b` is a subsequence of `b`. */
  lemma {:induction false} SubsequenceConsRight<T>(a: seq<T>, b: seq<T>)
    requires |b| > 0
    requires IsSubsequence(a, b[1..])
    ensures IsSubsequence(a, b)
    decreases |b|, 0
  {
    if |a| > 0 && a[0] == b[0] {
      SubsequenceDropHead(a, b[1..]);
    }
  }

  /** Dropping the first element of a subsequence leaves a subsequence. */
  lemma {:induction false} SubsequenceDropHead<T>(a: seq<T>, b: seq<T>)
    requires |a| > 0
    requires IsSubsequence(a, b)
    ensures IsSubsequence(a[1..], b)
    decreases |b|, 1
  {
    assert |b| > 0;
    if a[0] == b[0] {
      SubsequenceConsRight(a[1..], b);
    } else {
      SubsequenceDropHead(a, b[1..]);
      SubsequenceConsRight(a[1..], b);
    }
  }
}
