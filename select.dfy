/**
 * The Select control (src/components/Select/Select.tsx): search filtering,
 * selection membership, option clicks in single and multiple mode, the
 * dropdown's keyboard focus, the trigger's display text, clearing, and the
 * open/position state of the dropdown. The selected value always comes
 * from the `value` prop; the control reports changes through `onChange`.
 */
module Select {
  import opened Common
  import Text

  datatype SelectOption = SelectOption(value: string, caption: string, disabled: bool)

  /** The `value` prop: absent, a string, or a string array. */
  datatype SelectValue = NoValue | One(s: string) | Many(vs: seq<string>)

  /** What `onChange` receives. */
  datatype Emission = EmitOne(s: string) | EmitMany(vs: seq<string>)

  /** The options whose lower-cased caption contains the lower-cased query, in order. */
  function Matching(options: seq<SelectOption>, query: string): (r: seq<SelectOption>)
    ensures |r| <= |options|
    ensures forall o :: o in r <==> o in options && Text.Contains(Text.Lower(o.caption), Text.Lower(query))
  {
    if options == [] then []
    else
      (if Text.Contains(Text.Lower(options[0].caption), Text.Lower(query)) then [options[0]] else [])
      + Matching(options[1..], query)
  }

  /** Matching distributes over concatenation, so it keeps the options' order. */
  lemma {:induction false} MatchingAppend(xs: seq<SelectOption>, ys: seq<SelectOption>, query: string)
    ensures Matching(xs + ys, query) == Matching(xs, query) + Matching(ys, query)
  {
    if xs == [] {
      assert xs + ys == ys;
    } else {
      assert (xs + ys)[1..] == xs[1..] + ys;
      MatchingAppend(xs[1..], ys, query);
    }
  }

  /** Every caption contains the empty query, so matching it keeps every option. */
  lemma {:induction false} MatchingEmptyQuery(options: seq<SelectOption>)
    ensures Matching(options, "") == options
  {
    if options != [] {
      Text.ContainsEmpty(Text.Lower(options[0].caption));
      assert Text.Lower("") == "";
      MatchingEmptyQuery(options[1..]);
    }
  }

  /** `filteredOptions`: all options for an empty query, else the matching ones. */
  function FilterOptions(options: seq<SelectOption>, query: string): (r: seq<SelectOption>)
    ensures query == [] ==> r == options
    ensures query != [] ==> r == Matching(options, query)
  {
    if query == [] then options else Matching(options, query)
  }

  /** The query is matched without regard to ASCII case. */
  lemma FilterIgnoresCase(options: seq<SelectOption>, query: string)
    ensures forall o :: o in FilterOptions(options, Text.Lower(query)) <==> o in FilterOptions(options, query)
  {
    Text.LowerIdempotent(query);
    if query == [] {
      MatchingEmptyQuery(options);
    }
  }

  /** The value handed to the dropdown: `value || (multiple ? [] : '')`. */
  function DropdownValue(multiple: bool, value: SelectValue): (r: SelectValue)
    ensures r != NoValue
    ensures multiple && !value.Many? && !(value.One? && value.s != []) ==> r == Many([])
    ensures !multiple && !value.Many? && !(value.One? && value.s != []) ==> r == One("")
    ensures value.Many? ==> r == value
    ensures value.One? && value.s != [] ==> r == value
  {
    match value
    case NoValue => if multiple then Many([]) else One("")
    case One(s) => if s == [] then (if multiple then Many([]) else One("")) else value
    case Many(_) => value
  }

  /** `isSelected`: membership in multiple mode, equality otherwise. */
  predicate IsSelected(multiple: bool, value: SelectValue, optionValue: string) {
    if multiple then value.Many? && optionValue in value.vs
    else value == One(optionValue)
  }

  /** Outside multiple mode at most one option value is selected. */
  lemma SingleModeSelectsOne(value: SelectValue, a: string, b: string)
    requires IsSelected(false, value, a) && IsSelected(false, value, b)
    ensures a == b
  {
  }

  /** `currentValues.filter(v => v !== optionValue)`. */
  function Without(vs: seq<string>, v: string): (r: seq<string>)
    ensures |r| <= |vs|
    ensures v !in r
    ensures forall w :: w != v ==> (w in r <==> w in vs)
    ensures v !in vs ==> r == vs
  {
    if vs == [] then []
    else (if vs[0] == v then [] else [vs[0]]) + Without(vs[1..], v)
  }

  lemma {:induction false} WithoutAppend(xs: seq<string>, ys: seq<string>, v: string)
    ensures Without(xs + ys, v) == Without(xs, v) + Without(ys, v)
  {
    if xs == [] {
      assert xs + ys == ys;
    } else {
      assert (xs + ys)[1..] == xs[1..] + ys;
      WithoutAppend(xs[1..], ys, v);
    }
  }

  /** A multiple-mode click: remove a selected value, append an unselected one. */
  function ToggleMembership(vs: seq<string>, v: string): (r: seq<string>)
    ensures v in r <==> v !in vs
    ensures forall w :: w != v ==> (w in r <==> w in vs)
    ensures v !in vs ==> r == vs + [v]
    ensures v in vs ==> |r| < |vs|
  {
    if v in vs then
      WithoutShrinks(vs, v);
      Without(vs, v)
    else vs + [v]
  }

  lemma {:induction false} WithoutShrinks(vs: seq<string>, v: string)
    requires v in vs
    ensures |Without(vs, v)| < |vs|
  {
    if vs[0] != v {
      WithoutShrinks(vs[1..], v);
    }
  }

  /** Clicking an unselected value twice restores the selection. */
  lemma ToggleTwice(vs: seq<string>, v: string)
    requires v !in vs
    ensures ToggleMembership(ToggleMembership(vs, v), v) == vs
  {
    WithoutAppend(vs, [v], v);
    assert Without([v], v) == [];
    assert vs + [] == vs;
  }

  /** `handleOptionClick`: what `onChange` receives and whether the dropdown closes. */
  function OptionClick(multiple: bool, value: SelectValue, optionValue: string): (r: (Emission, bool))
    ensures !multiple ==> r == (EmitOne(optionValue), true)
    ensures multiple ==> r.0.EmitMany? && !r.1
    ensures multiple ==>
              (optionValue in r.0.vs <==> !IsSelected(multiple, DropdownValue(multiple, value), optionValue))
    ensures multiple ==> forall w :: w != optionValue ==>
              (w in r.0.vs <==> IsSelected(multiple, DropdownValue(multiple, value), w))
  {
    if multiple then
      var current := match DropdownValue(multiple, value) case Many(vs) => vs case _ => [];
      (EmitMany(ToggleMembership(current, optionValue)), false)
    else (EmitOne(optionValue), true)
  }

  /** The dropdown's ArrowDown and ArrowUp moves of the focus index. */
  function NextFocus(key: Key, focused: int, count: nat): (r: int)
    ensures key == ArrowDown ==> r == MinInt(focused + 1, count - 1)
    ensures key == ArrowUp ==> r == MaxInt(focused - 1, 0)
    ensures key != ArrowDown && key != ArrowUp ==> r == focused
  {
    if key == ArrowDown then MinInt(focused + 1, count - 1)
    else if key == ArrowUp then MaxInt(focused - 1, 0)
    else focused
  }

  /** From a focus on the list, the arrow keys keep the focus on the list. */
  lemma ArrowsStayOnList(key: Key, focused: int, count: nat)
    requires 0 <= focused < count
    ensures 0 <= NextFocus(key, focused, count) < count
  {
  }

  /** ArrowDown on an empty list moves the focus to -1, where Enter selects nothing. */
  lemma ArrowDownOnEmptyList(focused: int)
    requires focused >= -1
    ensures NextFocus(ArrowDown, focused, 0) == -1
    ensures EnterTarget([], NextFocus(ArrowDown, focused, 0)).None?
  {
  }

  /** Enter picks the focused option only when it exists and is enabled. */
  function EnterTarget(filtered: seq<SelectOption>, focused: int): (r: Option<string>)
    ensures r.Some? <==> 0 <= focused < |filtered| && !filtered[focused].disabled
    ensures r.Some? ==> r.value == filtered[focused].value
  {
    if 0 <= focused < |filtered| && !filtered[focused].disabled then Some(filtered[focused].value)
    else None
  }

  /** `options.find(opt => opt.value === v)`: the first option with that value. */
  function Find(options: seq<SelectOption>, v: string): (r: Option<SelectOption>)
    ensures r.None? <==> forall o :: o in options ==> o.value != v
    ensures r.Some? ==> r.value in options && r.value.value == v
    ensures r.Some? ==> exists i :: 0 <= i < |options| && options[i] == r.value
                          && forall j :: 0 <= j < i ==> options[j].value != v
  {
    if options == [] then None
    else if options[0].value == v then Some(options[0])
    else
      var r := Find(options[1..], v);
      if r.Some? then
        var i :| 0 <= i < |options[1..]| && options[1..][i] == r.value
                 && forall j :: 0 <= j < i ==> options[1..][j].value != v;
        assert options[i + 1] == r.value;
        assert forall j :: 0 <= j < i + 1 ==> options[j].value != v by {
          forall j | 0 <= j < i + 1 ensures options[j].value != v {
            if j > 0 { assert options[j] == options[1..][j - 1]; }
          }
        }
        r
      else r
  }

  /** `option?.label || placeholder`. */
  function CaptionOr(options: seq<SelectOption>, v: string, placeholder: string): (s: string)
    ensures Find(options, v).Some? && Find(options, v).value.caption != [] ==> s == Find(options, v).value.caption
    ensures Find(options, v).Some? && Find(options, v).value.caption == [] ==> s == placeholder
    ensures Find(options, v).None? ==> s == placeholder
  {
    match Find(options, v)
    case Some(o) => if o.caption != [] then o.caption else placeholder
    case None => placeholder
  }

  /** `hasValue`: a non-empty array in multiple mode, a truthy value otherwise. */
  predicate HasValue(multiple: bool, value: SelectValue) {
    if multiple then value.Many? && |value.vs| > 0
    else value.Many? || (value.One? && value.s != [])
  }

  /**
   * `hasValue` holds exactly when some option value is selected (a
   * non-empty one outside multiple mode, where `Boolean(value)` is tested).
   */
  lemma HasValueIffSomeSelected(multiple: bool, value: SelectValue)
    ensures multiple ==> (HasValue(multiple, value) <==> exists o :: IsSelected(multiple, value, o))
    ensures !multiple && !value.Many? ==>
              (HasValue(multiple, value) <==> exists o :: o != [] && IsSelected(multiple, value, o))
  {
    if multiple && HasValue(multiple, value) {
      assert IsSelected(multiple, value, value.vs[0]);
    }
    if !multiple && value.One? && HasValue(multiple, value) {
      assert IsSelected(multiple, value, value.s);
    }
  }

  /** `getDisplayText`. */
  function DisplayText(multiple: bool, value: SelectValue, options: seq<SelectOption>, placeholder: string): (s: string)
    ensures !HasValue(multiple, value) && !(value.Many? && !multiple) ==> s == placeholder
    ensures multiple && value.Many? && |value.vs| >= 2 ==>
              s == Text.NatToString(|value.vs|) + " itens selecionados"
    ensures multiple && value.Many? && |value.vs| == 1 ==> s == CaptionOr(options, value.vs[0], placeholder)
    ensures !multiple && value.One? && value.s != [] ==> s == CaptionOr(options, value.s, placeholder)
    ensures !multiple && value.Many? ==> s == placeholder
  {
    if multiple then
      var selected := if value.Many? then value.vs else [];
      if |selected| == 0 then placeholder
      else if |selected| == 1 then CaptionOr(options, selected[0], placeholder)
      else Text.NatToString(|selected|) + " itens selecionados"
    else
      match value
      case NoValue => placeholder
      case One(s) => if s == [] then placeholder else CaptionOr(options, s, placeholder)
      case Many(_) => placeholder
  }

  /** With two or more selections the text starts with their count. */
  lemma CountTextReadsBack(options: seq<SelectOption>, placeholder: string, vs: seq<string>)
    requires |vs| >= 2
    ensures var s := DisplayText(true, Many(vs), options, placeholder);
            Text.AllDigits(Text.Split(s, ' ')[0]) && Text.DigitsValue(Text.Split(s, ' ')[0]) == |vs|
  {
    var digits := Text.NatToString(|vs|);
    Text.NatToStringValue(|vs|);
    assert digits + " itens selecionados" == digits + [' '] + "itens selecionados";
    LeadingPiece(digits, "itens selecionados");
  }

  /** A number followed by a space and more text splits off as the first piece. */
  lemma LeadingPiece(digits: string, rest: string)
    requires Text.AllDigits(digits)
    ensures Text.Split(digits + [' '] + rest, ' ')[0] == digits
  {
    Text.DigitsHaveNoSep(digits, ' ');
    Text.SplitCons(digits, rest, ' ');
  }

  /** `handleClear`: empty the selection unless disabled. */
  function ClearEmission(disabled: bool, multiple: bool): (r: Option<Emission>)
    ensures disabled <==> r.None?
    ensures r.Some? ==> !HasValue(multiple, ValueOf(r.value))
    ensures r.Some? ==> r.value == (if multiple then EmitMany([]) else EmitOne(""))
  {
    if disabled then None
    else if multiple then Some(EmitMany([]))
    else Some(EmitOne(""))
  }

  /** The `value` prop of a parent that stores what `onChange` reported. */
  function ValueOf(e: Emission): SelectValue {
    match e
    case EmitOne(s) => One(s)
    case EmitMany(vs) => Many(vs)
  }

  /** A parent that stores each click shows the clicked value as selected, or unselected when it was. */
  lemma ClickThenSelected(multiple: bool, value: SelectValue, optionValue: string)
    ensures IsSelected(multiple, ValueOf(OptionClick(multiple, value, optionValue).0), optionValue)
            <==> (!multiple || !IsSelected(multiple, DropdownValue(multiple, value), optionValue))
  {
  }

  /** The dropdown's place: 8 px under the trigger, as wide as it. */
  function Below(rect: Rect): (p: Position)
    ensures p.top == rect.Bottom() + 8.0 && p.left == rect.left && p.width == rect.width
  {
    Position(rect.Bottom() + 8.0, rect.left, rect.width)
  }

  /**
   * A Select's own state: whether the dropdown is open, where it is
   * placed, whether a repositioning frame is pending, and the state of
   * the open dropdown (its search text and focus index).
   */
  class SelectState {
    var showDropdown: bool
    var position: Option<Position>
    var frameScheduled: bool
    var query: string
    var focused: int

    /** A closed dropdown has no pending repositioning frame. */
    predicate Valid()
      reads this
    {
      !showDropdown ==> !frameScheduled
    }

    constructor ()
      ensures Valid()
      ensures !showDropdown && position.None? && !frameScheduled
      ensures query == "" && focused == 0
    {
      showDropdown := false;
      position := None;
      frameScheduled := false;
      query := "";
      focused := 0;
    }

    /** The dropdown is in the page only when open, enabled and placed. */
    function DropdownRendered(disabled: bool): (b: bool)
      reads this
      ensures b ==> showDropdown && position.Some?
      ensures b <==> showDropdown && !disabled && position.Some?
    {
      showDropdown && !disabled && position.Some?
    }

    /**
     * `handleToggleDropdown`: ignored when disabled; opening places the
     * dropdown under the trigger and mounts it with an empty search and
     * focus 0; closing keeps the last position.
     */
    method Toggle(disabled: bool, trigger: Option<Rect>)
      requires Valid()
      modifies this
      ensures Valid()
      ensures disabled ==> showDropdown == old(showDropdown) && position == old(position) &&
                           frameScheduled == old(frameScheduled) && query == old(query) && focused == old(focused)
      ensures !disabled ==> showDropdown == !old(showDropdown) && !frameScheduled
      ensures !disabled && !old(showDropdown) && trigger.Some? ==> position == Some(Below(trigger.value))
      ensures !disabled && !old(showDropdown) ==> query == "" && focused == 0
      ensures !disabled && old(showDropdown) ==> query == old(query) && focused == old(focused)
      ensures old(showDropdown) || trigger.None? || disabled ==> position == old(position)
    {
      if !disabled {
        if !showDropdown {
          if trigger.Some? {
            position := Some(Below(trigger.value));
          }
          query := "";
          focused := 0;
        } else {
          frameScheduled := false;
        }
        showDropdown := !showDropdown;
      }
    }

    /** Enter or Space on the trigger toggles the dropdown, as a click does; other keys do nothing. */
    method TriggerKey(disabled: bool, key: Key, trigger: Option<Rect>)
      requires Valid()
      modifies this
      ensures Valid()
      ensures (key != Enter && key != Space) || disabled ==>
                showDropdown == old(showDropdown) && position == old(position) &&
                frameScheduled == old(frameScheduled) && query == old(query) && focused == old(focused)
      ensures (key == Enter || key == Space) && !disabled ==> showDropdown == !old(showDropdown) && !frameScheduled
      ensures (key == Enter || key == Space) && !disabled && !old(showDropdown) && trigger.Some? ==>
                position == Some(Below(trigger.value))
      ensures (key == Enter || key == Space) && !disabled && !old(showDropdown) ==> query == "" && focused == 0
      ensures (key == Enter || key == Space) && !disabled && old(showDropdown) ==>
                query == old(query) && focused == old(focused)
      ensures old(showDropdown) || trigger.None? ==> position == old(position)
    {
      if key == Enter || key == Space {
        Toggle(disabled, trigger);
      }
    }

    /** Closing (`onClose`, Escape, a single-mode pick): hide and forget the position. */
    method Close()
      requires Valid()
      modifies this
      ensures Valid()
      ensures !showDropdown && position.None? && !frameScheduled
      ensures query == old(query) && focused == old(focused)
    {
      showDropdown := false;
      position := None;
      frameScheduled := false;
    }

    /** A mousedown outside both the trigger and the dropdown closes an open dropdown. */
    method OutsideMouseDown(insideTrigger: bool, insideDropdown: bool)
      requires Valid()
      modifies this
      ensures Valid()
      ensures old(showDropdown) && !insideTrigger && !insideDropdown ==> !showDropdown && position.None?
      ensures !(old(showDropdown) && !insideTrigger && !insideDropdown) ==>
                showDropdown == old(showDropdown) && position == old(position) && frameScheduled == old(frameScheduled)
    {
      if showDropdown && !insideTrigger && !insideDropdown {
        Close();
      }
    }

    /** A scroll anywhere but inside the dropdown asks for one repositioning frame. */
    method Scroll(insideDropdown: bool)
      requires Valid()
      modifies this
      ensures Valid()
      ensures frameScheduled == (old(frameScheduled) || (showDropdown && !insideDropdown))
      ensures showDropdown == old(showDropdown) && position == old(position)
    {
      if showDropdown && !insideDropdown {
        frameScheduled := true;
      }
    }

    /** A window resize asks for one repositioning frame. */
    method Resize()
      requires Valid()
      modifies this
      ensures Valid()
      ensures frameScheduled == (old(frameScheduled) || showDropdown)
      ensures showDropdown == old(showDropdown) && position == old(position)
    {
      if showDropdown {
        frameScheduled := true;
      }
    }

    /** The pending frame places the dropdown under the trigger's current box. */
    method Frame(trigger: Option<Rect>)
      requires Valid()
      modifies this
      ensures Valid()
      ensures !frameScheduled && showDropdown == old(showDropdown)
      ensures old(frameScheduled) && trigger.Some? ==> position == Some(Below(trigger.value))
      ensures !(old(frameScheduled) && trigger.Some?) ==> position == old(position)
    {
      if frameScheduled {
        if trigger.Some? {
          position := Some(Below(trigger.value));
        }
        frameScheduled := false;
      }
    }

    /** Typing in the search box; the focus index is left as it was. */
    method SetQuery(q: string)
      modifies this
      ensures query == q && focused == old(focused)
      ensures showDropdown == old(showDropdown) && position == old(position) && frameScheduled == old(frameScheduled)
    {
      query := q;
    }

    /** A click on an option of the list; disabled options ignore it. */
    method ClickOption(multiple: bool, value: SelectValue, option: SelectOption) returns (emitted: Option<Emission>)
      requires Valid()
      modifies this
      ensures Valid()
      ensures option.disabled ==> emitted.None?
      ensures !option.disabled ==> emitted == Some(OptionClick(multiple, value, option.value).0)
      ensures !option.disabled && !multiple ==> !showDropdown && position.None? && !frameScheduled
      ensures option.disabled || multiple ==>
                showDropdown == old(showDropdown) && position == old(position) && frameScheduled == old(frameScheduled)
      ensures query == old(query) && focused == old(focused)
    {
      emitted := None;
      if !option.disabled {
        var (e, closes) := OptionClick(multiple, value, option.value);
        emitted := Some(e);
        if closes {
          Close();
        }
      }
    }

    /** `handleKeyDown` of the dropdown, over the options the current query shows. */
    method DropdownKey(key: Key, multiple: bool, value: SelectValue, options: seq<SelectOption>)
      returns (emitted: Option<Emission>)
      requires Valid()
      modifies this
      ensures Valid()
      ensures var filtered := FilterOptions(options, old(query));
              focused == NextFocus(key, old(focused), |filtered|)
      ensures key != Enter ==> emitted.None?
      ensures key == Enter ==>
                var target := EnterTarget(FilterOptions(options, old(query)), old(focused));
                emitted == (if target.Some? then Some(OptionClick(multiple, value, target.value).0) else None)
      ensures query == old(query)
      ensures key == Escape ==> !showDropdown && position.None? && !frameScheduled
      ensures key != Escape && !(key == Enter && emitted.Some? && !multiple) ==>
                showDropdown == old(showDropdown) && position == old(position) && frameScheduled == old(frameScheduled)
      ensures key == Enter && emitted.Some? && !multiple ==> !showDropdown && position.None? && !frameScheduled
    {
      var filtered := FilterOptions(options, query);
      emitted := None;
      if key == ArrowDown || key == ArrowUp {
        focused := NextFocus(key, focused, |filtered|);
      } else if key == Enter {
        var target := EnterTarget(filtered, focused);
        if target.Some? {
          var (e, closes) := OptionClick(multiple, value, target.value);
          emitted := Some(e);
          if closes {
            Close();
          }
        }
      } else if key == Escape {
        Close();
      }
    }
  }
}
