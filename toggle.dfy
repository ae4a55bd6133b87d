/**
 * The checked state shared by Checkbox (src/components/Checkbox/Checkbox.tsx),
 * Switch (src/components/Switch/Switch.tsx) and RadioButton
 * (src/components/RadioButton/RadioButton.tsx). The three keep the same
 * state and handle a change the same way; the control counts as controlled
 * exactly when an `onChange` callback is passed, whatever `checked` is.
 */
module Toggle {
  import opened Common

  /** The `checked` prop, whether `onChange` is passed, and the internal state. */
  datatype ToggleState = ToggleState(checkedProp: bool, hasOnChange: bool, internal: bool)

  /** A change event from the native input, or a re-render with new props. */
  datatype ToggleEvent = Change(checked: bool) | Render(checked: bool, hasOnChange: bool)

  /** First render: the internal state starts from the `checked` prop (default false). */
  function Initial(checked: bool, hasOnChange: bool): (s: ToggleState)
    ensures Displayed(s) == checked
  {
    ToggleState(checked, hasOnChange, checked)
  }

  /** `currentChecked`: the prop when controlled, else the internal state. */
  function Displayed(s: ToggleState): (b: bool)
    ensures s.hasOnChange ==> b == s.checkedProp
    ensures !s.hasOnChange ==> b == s.internal
  {
    if s.hasOnChange then s.checkedProp else s.internal
  }

  /** The state after one event. */
  function Step(s: ToggleState, e: ToggleEvent): (t: ToggleState)
    ensures e.Change? && s.hasOnChange ==> t == s
    ensures e.Change? && !s.hasOnChange ==> t == s.(internal := e.checked) && Displayed(t) == e.checked
    ensures e.Render? ==> t == ToggleState(e.checked, e.hasOnChange, s.internal)
    ensures e.Render? ==> Displayed(t) == (if e.hasOnChange then e.checked else s.internal)
  {
    match e
    case Change(b) => if s.hasOnChange then s else s.(internal := b)
    case Render(c, h) => s.(checkedProp := c, hasOnChange := h)
  }

  /** What `onChange` receives for one event (`None`: not called). */
  function Notified(s: ToggleState, e: ToggleEvent): (n: Option<bool>)
    ensures n.Some? <==> e.Change? && s.hasOnChange
    ensures n.Some? ==> n.value == e.checked
  {
    if e.Change? && s.hasOnChange then Some(e.checked) else None
  }

  /** The state after a sequence of events. */
  function Run(s: ToggleState, es: seq<ToggleEvent>): ToggleState
    decreases |es|
  {
    if es == [] then s else Run(Step(s, es[0]), es[1..])
  }

  predicate AllChanges(es: seq<ToggleEvent>) {
    forall i :: 0 <= i < |es| ==> es[i].Change?
  }

  /** A controlled control shows its prop however often the user clicks. */
  lemma {:induction false} ControlledIgnoresClicks(s: ToggleState, es: seq<ToggleEvent>)
    requires s.hasOnChange && AllChanges(es)
    ensures Run(s, es) == s
    ensures Displayed(Run(s, es)) == s.checkedProp
    decreases |es|
  {
    if es != [] {
      ControlledIgnoresClicks(Step(s, es[0]), es[1..]);
    }
  }

  /** An uncontrolled control shows the last value the user chose, or its initial state. */
  lemma {:induction false} UncontrolledShowsLastChange(s: ToggleState, es: seq<ToggleEvent>)
    requires !s.hasOnChange && AllChanges(es)
    ensures Displayed(Run(s, es)) == (if es == [] then Displayed(s) else es[|es| - 1].checked)
    ensures Run(s, es).checkedProp == s.checkedProp && !Run(s, es).hasOnChange
    decreases |es|
  {
    if es != [] {
      UncontrolledShowsLastChange(Step(s, es[0]), es[1..]);
    }
  }

  /** The state of one mounted Checkbox, Switch or RadioButton. */
  class CheckedCell {
    var checkedProp: bool
    var hasOnChange: bool
    var internal: bool

    function State(): ToggleState
      reads this
    {
      ToggleState(checkedProp, hasOnChange, internal)
    }

    constructor (checked: bool, hasOnChange: bool)
      ensures State() == Initial(checked, hasOnChange)
    {
      checkedProp := checked;
      this.hasOnChange := hasOnChange;
      internal := checked;
    }

    /** The state the indicator (check icon, thumb, dot) renders. */
    function CurrentChecked(): (b: bool)
      reads this
      ensures hasOnChange ==> b == checkedProp
      ensures !hasOnChange ==> b == internal
    {
      Displayed(State())
    }

    /** `handleChange`: store when uncontrolled, then call `onChange` if present. */
    method HandleChange(newChecked: bool) returns (notified: Option<bool>)
      modifies this
      ensures State() == Step(old(State()), Change(newChecked))
      ensures notified == Notified(old(State()), Change(newChecked))
    {
      if !hasOnChange {
        internal := newChecked;
      }
      notified := if hasOnChange then Some(newChecked) else None;
    }

    /** A re-render with new `checked` / `onChange` props. */
    method Rerender(checked: bool, hasOnChange: bool)
      modifies this
      ensures State() == Step(old(State()), Render(checked, hasOnChange))
    {
      checkedProp := checked;
      this.hasOnChange := hasOnChange;
    }
  }
}
