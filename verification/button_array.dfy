/**
 The `ButtonArray` family: a fixed, ordered row of buttons, each carrying the
 reaction given for its position, placed in one horizontal stack panel.
 */
module ButtonArrays {
  import opened Options
  import opened Controls

  datatype ButtonArray<C> = ButtonArray(buttons: seq<Button<C>>)

  function Labels<C>(a: ButtonArray<C>): (r: seq<LabelKey>)
    ensures |r| == |a.buttons|
    ensures forall i :: 0 <= i < |r| ==> r[i] == a.buttons[i].caption
  {
    seq(|a.buttons|, i requires 0 <= i < |a.buttons| => a.buttons[i].caption)
  }

  function Callbacks<C>(a: ButtonArray<C>): (r: seq<Option<C>>)
    ensures |r| == |a.buttons|
    ensures forall i :: 0 <= i < |r| ==> r[i] == a.buttons[i].onClick
  {
    seq(|a.buttons|, i requires 0 <= i < |a.buttons| => a.buttons[i].onClick)
  }

  /** The rendered array: a div holding one horizontal stack panel of the buttons. */
  function Render<C>(a: ButtonArray<C>): Node<C>
  {
    Div([StackPanel(true, ButtonNodes(a.buttons))])
  }

  /** Reads the buttons back out of a rendered tree of the shape `Render` produces. */
  function PanelButtons<C>(n: Node<C>): Option<seq<Button<C>>>
  {
    if n.Div? && |n.children| == 1 && n.children[0].StackPanel? && n.children[0].horizontal
       && forall i :: 0 <= i < |n.children[0].children| ==> n.children[0].children[i].ButtonNode?
    then
      var row := n.children[0].children;
      Some(seq(|row|, i requires 0 <= i < |row| && row[i].ButtonNode? => row[i].button))
    else None
  }

  /** The base array places exactly the given buttons, in the given order, in one horizontal panel. */
  lemma RenderPlacesButtons<C>(a: ButtonArray<C>)
    ensures PanelButtons(Render(a)) == Some(a.buttons)
  {
    var row := ButtonNodes(a.buttons);
    assert Render(a).children[0].children == row;
    var back := seq(|row|, i requires 0 <= i < |row| && row[i].ButtonNode? => row[i].button);
    assert back == a.buttons;
  }

  /**
   Clicking the button at position `i`: the reaction that fires, invoked with that
   button, or `None` for an inert button. It is the reaction of the `i`-th button the
   rendered panel shows.
   */
  function Press<C>(a: ButtonArray<C>, i: nat): (fired: Option<C>)
    requires i < |a.buttons|
    ensures PanelButtons(Render(a)).Some? && i < |PanelButtons(Render(a)).value|
    ensures fired == PanelButtons(Render(a)).value[i].onClick
  {
    RenderPlacesButtons(a);
    a.buttons[i].onClick
  }

  /**
   In every button array kind, clicking position `i` fires the callback passed as the
   constructor's `i`-th argument, under the caption the kind puts at that position.
   */
  lemma PressInArgumentOrder<C>(c0: Option<C>, c1: Option<C>, c2: Option<C>, i: nat)
    ensures i < 3 ==> (Press(AbortRetryIgnoreButtonArray(c0, c1, c2), i) == [c0, c1, c2][i]
                   && Labels(AbortRetryIgnoreButtonArray(c0, c1, c2))[i] == [ButtonAbort, ButtonRetry, ButtonIgnore][i])
    ensures i < 3 ==> (Press(CancelTryContinueButtonArray(c0, c1, c2), i) == [c0, c1, c2][i]
                   && Labels(CancelTryContinueButtonArray(c0, c1, c2))[i] == [ButtonCancel, ButtonTry, ButtonContinue][i])
    ensures i < 1 ==> (Press(OKButtonArray(c0), i) == c0 && Labels(OKButtonArray(c0))[i] == ButtonOK)
    ensures i < 2 ==> (Press(OKCancelButtonArray(c0, c1), i) == [c0, c1][i]
                   && Labels(OKCancelButtonArray(c0, c1))[i] == [ButtonOK, ButtonCancel][i])
    ensures i < 2 ==> (Press(RetryCancelButtonArray(c0, c1), i) == [c0, c1][i]
                   && Labels(RetryCancelButtonArray(c0, c1))[i] == [ButtonRetry, ButtonCancel][i])
    ensures i < 2 ==> (Press(YesNoButtonArray(c0, c1), i) == [c0, c1][i]
                   && Labels(YesNoButtonArray(c0, c1))[i] == [ButtonYes, ButtonNo][i])
    ensures i < 3 ==> (Press(YesNoCancelButtonArray(c0, c1, c2), i) == [c0, c1, c2][i]
                   && Labels(YesNoCancelButtonArray(c0, c1, c2))[i] == [ButtonYes, ButtonNo, ButtonCancel][i])
  {
  }

  function AbortRetryIgnoreButtonArray<C>(abortCallback: Option<C>, retryCallback: Option<C>, ignoreCallback: Option<C>): (a: ButtonArray<C>)
    ensures Labels(a) == [ButtonAbort, ButtonRetry, ButtonIgnore]
    ensures Callbacks(a) == [abortCallback, retryCallback, ignoreCallback]
  {
    ButtonArray([Button(ButtonAbort, abortCallback), Button(ButtonRetry, retryCallback), Button(ButtonIgnore, ignoreCallback)])
  }

  function CancelTryContinueButtonArray<C>(cancelCallback: Option<C>, tryCallback: Option<C>, continueCallback: Option<C>): (a: ButtonArray<C>)
    ensures Labels(a) == [ButtonCancel, ButtonTry, ButtonContinue]
    ensures Callbacks(a) == [cancelCallback, tryCallback, continueCallback]
  {
    ButtonArray([Button(ButtonCancel, cancelCallback), Button(ButtonTry, tryCallback), Button(ButtonContinue, continueCallback)])
  }

  function OKButtonArray<C>(okCallback: Option<C>): (a: ButtonArray<C>)
    ensures Labels(a) == [ButtonOK]
    ensures Callbacks(a) == [okCallback]
  {
    ButtonArray([Button(ButtonOK, okCallback)])
  }

  function OKCancelButtonArray<C>(okCallback: Option<C>, cancelCallback: Option<C>): (a: ButtonArray<C>)
    ensures Labels(a) == [ButtonOK, ButtonCancel]
    ensures Callbacks(a) == [okCallback, cancelCallback]
  {
    ButtonArray([Button(ButtonOK, okCallback), Button(ButtonCancel, cancelCallback)])
  }

  function RetryCancelButtonArray<C>(retryCallback: Option<C>, cancelCallback: Option<C>): (a: ButtonArray<C>)
    ensures Labels(a) == [ButtonRetry, ButtonCancel]
    ensures Callbacks(a) == [retryCallback, cancelCallback]
  {
    ButtonArray([Button(ButtonRetry, retryCallback), Button(ButtonCancel, cancelCallback)])
  }

  function YesNoButtonArray<C>(yesCallback: Option<C>, noCallback: Option<C>): (a: ButtonArray<C>)
    ensures Labels(a) == [ButtonYes, ButtonNo]
    ensures Callbacks(a) == [yesCallback, noCallback]
  {
    ButtonArray([Button(ButtonYes, yesCallback), Button(ButtonNo, noCallback)])
  }

  function YesNoCancelButtonArray<C>(yesCallback: Option<C>, noCallback: Option<C>, cancelCallback: Option<C>): (a: ButtonArray<C>)
    ensures Labels(a) == [ButtonYes, ButtonNo, ButtonCancel]
    ensures Callbacks(a) == [yesCallback, noCallback, cancelCallback]
  {
    ButtonArray([Button(ButtonYes, yesCallback), Button(ButtonNo, noCallback), Button(ButtonCancel, cancelCallback)])
  }
}
