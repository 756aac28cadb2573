/**
 The host's primitive controls, reduced to the attributes the dialogs read or set:
 a caption key, a current text, a checked flag and an optional reaction. A reaction
 is an opaque token of type `C`; what it does is decided by whoever wires it.
 */
module Controls {
  import opened Options

  /** Logical keys of the localized captions; the string lookup itself is external. */
  datatype LabelKey =
    | ButtonAbort | ButtonRetry | ButtonIgnore
    | ButtonCancel | ButtonTry | ButtonContinue
    | ButtonOK | ButtonYes | ButtonNo | ButtonSelect

  /** The radio group name of one select-one prompt: an opaque token, fresh per prompt. */
  datatype GroupId = GroupId(token: nat)

  /** A button; with no reaction it is inert. */
  datatype Button<C> = Button(caption: LabelKey, onClick: Option<C>)

  datatype RadioButton<C> = RadioButton(group: GroupId, text: string, checked: bool, onClick: Option<C>)

  datatype CheckBox<C> = CheckBox(text: string, checked: bool, onClick: Option<C>)

  /** A rendered widget tree; child order is rendering order. */
  datatype Node<C> =
    | ButtonNode(button: Button<C>)
    | RadioNode(radio: RadioButton<C>)
    | CheckBoxNode(checkBox: CheckBox<C>)
    | TextBoxNode(text: string)
    | StackPanel(horizontal: bool, children: seq<Node<C>>)
    | Div(children: seq<Node<C>>)

  function ButtonNodes<C>(buttons: seq<Button<C>>): (r: seq<Node<C>>)
    ensures |r| == |buttons|
    ensures forall i :: 0 <= i < |r| ==> r[i] == ButtonNode(buttons[i])
  {
    seq(|buttons|, i requires 0 <= i < |buttons| => ButtonNode(buttons[i]))
  }

  function RadioNodes<C>(radios: seq<RadioButton<C>>): (r: seq<Node<C>>)
    ensures |r| == |radios|
    ensures forall i :: 0 <= i < |r| ==> r[i] == RadioNode(radios[i])
  {
    seq(|radios|, i requires 0 <= i < |radios| => RadioNode(radios[i]))
  }

  function CheckBoxNodes<C>(boxes: seq<CheckBox<C>>): (r: seq<Node<C>>)
    ensures |r| == |boxes|
    ensures forall i :: 0 <= i < |r| ==> r[i] == CheckBoxNode(boxes[i])
  {
    seq(|boxes|, i requires 0 <= i < |boxes| => CheckBoxNode(boxes[i]))
  }
}
