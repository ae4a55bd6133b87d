/**
 * The Input control's state (src/components/Input/Input.tsx): the value
 * cell (controlled exactly when `value` is given), the display text of the
 * currency and date kinds, and the date picker's open flag and position.
 */
module Input {
  import opened Common
  import opened InputFormat
  import Calendar
  import DatePicker
  import Text

  /** `type`: currency and date have their own handling; every other type is plain. */
  datatype InputKind = PlainKind | CurrencyKind | DateKind

  /**
   * The display state: typed text, or an amount in cents that
   * `Intl.NumberFormat` renders in the effective locale's currency.
   */
  datatype Shown = Typed(text: string) | Money(cents: nat)

  /** `formatCurrency(text)` as display state (`''` when there is no digit). */
  function CurrencyShown(text: string): (s: Shown)
    ensures s == Typed("") <==> Text.DigitsOf(text) == []
    ensures s.Money? ==> CurrencyAmount(text) == Some(s.cents)
  {
    match CurrencyAmount(text)
    case None => Typed("")
    case Some(c) => Money(c)
  }

  /** The value `onChange` receives for typed text. */
  function Emitted(kind: InputKind, text: string): (r: string)
    ensures kind == PlainKind ==> r == text
    ensures kind == CurrencyKind ==> r == UnformatCurrency(text)
    ensures kind == DateKind ==> r == ParseDate(FormatDateMask(text))
  {
    match kind
    case PlainKind => text
    case CurrencyKind => UnformatCurrency(text)
    case DateKind => ParseDate(FormatDateMask(text))
  }

  /**
   * The display the `value` effect sets, as written: `formatCurrency(value)`
   * for currency, which reads the value's digits as cents, and
   * `formatDateDisplay(value)` for date; a plain input keeps its display.
   */
  function EffectDisplay(kind: InputKind, display: Shown, value: string): (r: Shown)
    ensures kind == PlainKind ==> r == display
    ensures kind == CurrencyKind ==> (r == Typed("") <==> Text.DigitsOf(value) == [])
    ensures kind == CurrencyKind && r.Money? ==> r.cents == Text.DigitsValue(Text.DigitsOf(value))
    ensures kind == DateKind ==> r == Typed(FormatDateDisplay(value))
  {
    match kind
    case PlainKind => display
    case CurrencyKind => (match ValueAmountAsWritten(value) case None => Typed("") case Some(c) => Money(c))
    case DateKind => Typed(DateValueDisplayAsWritten(value))
  }

  /** A date input only ever emits `''` or an all-digit `YYYY-MM-DD`. */
  lemma DateEmitsIsoOrNothing(text: string)
    ensures Emitted(DateKind, text) == [] || IsIsoDigits(Emitted(DateKind, text))
    ensures Emitted(DateKind, text) != [] <==> |Text.DigitsOf(text)| >= 8
  {
    ParseMaskComplete(text);
    var d := Text.DigitsOf(text);
    if |d| >= 8 {
      IsoOfDigits(d[4..8], d[2..4], d[..2]);
    }
  }

  /** Four, two and two digits joined by `-` have the ISO digit shape. */
  lemma IsoOfDigits(y: string, m: string, dd: string)
    requires Text.AllDigits(y) && Text.AllDigits(m) && Text.AllDigits(dd)
    requires |y| == 4 && |m| == 2 && |dd| == 2
    ensures IsIsoDigits(y + "-" + m + "-" + dd)
  {
    var r := y + "-" + m + "-" + dd;
    assert r[..4] == y && r[5..7] == m && r[8..] == dd;
  }

  /** A day picked in the panel round-trips through the field's text. */
  lemma PickedDayRoundTrip(d: Calendar.Date)
    requires Calendar.ValidDate(d) && 1000 <= d.year <= 9999
    ensures IsIsoDigits(DatePicker.DayIso(d))
    ensures ParseDate(FormatDateDisplay(DatePicker.DayIso(d))) == DatePicker.DayIso(d)
  {
    DatePicker.DayIsoShape(d);
    ParseDisplayIso(DatePicker.DayIso(d));
  }

  class InputField {
    const kind: InputKind
    var valueProp: Option<string>
    var internal: string
    var display: Shown
    var showPicker: bool
    var pickerPosition: Option<Position>

    /** Only currency shows amounts, only date opens the picker, and an open picker has a position. */
    predicate Valid()
      reads this
    {
      && (kind != CurrencyKind ==> display.Typed?)
      && (kind != DateKind ==> !showPicker)
      && (showPicker ==> pickerPosition.Some?)
    }

    /** The value the control stands for: the prop when controlled, else the internal value. */
    function Current(): (c: string)
      reads this
      ensures valueProp.Some? ==> c == valueProp.value
      ensures valueProp.None? ==> c == internal
    {
      if valueProp.Some? then valueProp.value else internal
    }

    /** What the native input shows. */
    function FieldShows(): Shown
      reads this
    {
      if kind == PlainKind then Typed(Current()) else display
    }

    /** First render and the mount run of the `value` effect. */
    constructor (kind: InputKind, valueProp: Option<string>)
      ensures Valid()
      ensures this.kind == kind && this.valueProp == valueProp
      ensures internal == valueProp.GetOr("")
      ensures !showPicker && pickerPosition.None?
      ensures valueProp.None? ==> display == Typed("")
      ensures valueProp.Some? ==> display == EffectDisplay(kind, Typed(valueProp.value), valueProp.value)
    {
      this.kind := kind;
      this.valueProp := valueProp;
      internal := valueProp.GetOr("");
      display := Typed(valueProp.GetOr(""));
      showPicker := false;
      pickerPosition := None;
      new;
      if valueProp.Some? {
        ValueEffect(valueProp.value);
      }
    }

    /** The `value` effect: currency and date inputs re-display the given value. */
    method ValueEffect(value: string)
      requires kind != CurrencyKind ==> display.Typed?
      modifies this
      ensures display == EffectDisplay(kind, old(display), value)
      ensures valueProp == old(valueProp) && internal == old(internal)
      ensures showPicker == old(showPicker) && pickerPosition == old(pickerPosition)
    {
      if kind == CurrencyKind {
        display := match ValueAmountAsWritten(value) case None => Typed("") case Some(c) => Money(c);
      } else if kind == DateKind {
        display := Typed(DateValueDisplayAsWritten(value));
      }
    }

    /**
     * `handleChange`: update the display (currency and date), store the
     * emitted form only when uncontrolled, and return what `onChange` receives.
     */
    method HandleChange(text: string) returns (emitted: string)
      requires Valid()
      modifies this
      ensures Valid()
      ensures emitted == Emitted(kind, text)
      ensures internal == (if valueProp.Some? then old(internal) else emitted)
      ensures kind == CurrencyKind ==> display == CurrencyShown(text)
      ensures kind == DateKind ==> display == Typed(FormatDateMask(text))
      ensures kind == PlainKind ==> display == old(display)
      ensures valueProp == old(valueProp)
      ensures showPicker == old(showPicker) && pickerPosition == old(pickerPosition)
    {
      if kind == CurrencyKind {
        display := CurrencyShown(text);
        emitted := UnformatCurrency(text);
      } else if kind == DateKind {
        var masked := FormatDateMask(text);
        display := Typed(masked);
        emitted := ParseDate(masked);
      } else {
        emitted := text;
      }
      if valueProp.None? {
        internal := emitted;
      }
    }

    /** A re-render with a new `value` prop; the effect runs when it changed and is given. */
    method ReceiveValue(newProp: Option<string>)
      requires Valid()
      modifies this
      ensures Valid()
      ensures valueProp == newProp && internal == old(internal)
      ensures newProp == old(valueProp) || newProp.None? ==> display == old(display)
      ensures newProp != old(valueProp) && newProp.Some? ==> display == EffectDisplay(kind, old(display), newProp.value)
      ensures showPicker == old(showPicker) && pickerPosition == old(pickerPosition)
    {
      if newProp != valueProp {
        valueProp := newProp;
        if newProp.Some? {
          ValueEffect(newProp.value);
        }
      }
    }

    /** `handleDateSelect`: show the picked date, store it when uncontrolled, emit the ISO text. */
    method HandleDateSelect(isoDate: string) returns (emitted: string)
      requires Valid() && kind == DateKind
      modifies this
      ensures Valid()
      ensures emitted == isoDate
      ensures display == Typed(FormatDateDisplay(isoDate))
      ensures internal == (if valueProp.Some? then old(internal) else isoDate)
      ensures valueProp == old(valueProp)
      ensures showPicker == old(showPicker) && pickerPosition == old(pickerPosition)
    {
      display := Typed(FormatDateDisplay(isoDate));
      if valueProp.None? {
        internal := isoDate;
      }
      emitted := isoDate;
    }

    /**
     * `handleToggleDatePicker`: opening measures the field and places the
     * panel 8 px below it, adding the page scroll offsets.
     */
    method ToggleDatePicker(rect: Rect, scrollX: real, scrollY: real)
      requires Valid() && kind == DateKind
      modifies this
      ensures Valid()
      ensures showPicker == !old(showPicker)
      ensures !old(showPicker) ==> pickerPosition == Some(Position(rect.Bottom() + scrollY + 8.0, rect.left + scrollX, rect.width))
      ensures old(showPicker) ==> pickerPosition == old(pickerPosition)
      ensures valueProp == old(valueProp) && internal == old(internal) && display == old(display)
    {
      if !showPicker {
        pickerPosition := Some(Position(rect.Bottom() + scrollY + 8.0, rect.left + scrollX, rect.width));
      }
      showPicker := !showPicker;
    }

    /** The calendar icon: toggles the picker only for an enabled date input without error. */
    method IconClick(disabled: bool, error: string, rect: Rect, scrollX: real, scrollY: real) returns (toggled: bool)
      requires Valid()
      modifies this
      ensures Valid()
      ensures toggled <==> kind == DateKind && !disabled && error == []
      ensures toggled ==> showPicker == !old(showPicker)
      ensures !toggled ==> showPicker == old(showPicker) && pickerPosition == old(pickerPosition)
      ensures valueProp == old(valueProp) && internal == old(internal) && display == old(display)
    {
      toggled := kind == DateKind && !disabled && error == [];
      if toggled {
        ToggleDatePicker(rect, scrollX, scrollY);
      }
    }

    /** A document mousedown while the picker is open: outside both field and panel it closes and forgets the position. */
    method OutsideMouseDown(insideField: bool, insidePanel: bool)
      requires Valid()
      modifies this
      ensures Valid()
      ensures old(showPicker) && !insideField && !insidePanel ==> !showPicker && pickerPosition.None?
      ensures !(old(showPicker) && !insideField && !insidePanel) ==>
                showPicker == old(showPicker) && pickerPosition == old(pickerPosition)
      ensures valueProp == old(valueProp) && internal == old(internal) && display == old(display)
    {
      if kind == DateKind && showPicker && !insideField && !insidePanel {
        showPicker := false;
        pickerPosition := None;
      }
    }

    /** The panel's `onClose`: hides it but keeps the last position. */
    method ClosePicker()
      requires Valid()
      modifies this
      ensures Valid()
      ensures !showPicker && pickerPosition == old(pickerPosition)
      ensures valueProp == old(valueProp) && internal == old(internal) && display == old(display)
    {
      showPicker := false;
    }

    /** A day clicked in the panel: the field shows it, the value is its ISO text, and the panel closes. */
    method PickDay(d: Calendar.Date) returns (emitted: string)
      requires Valid() && kind == DateKind && Calendar.ValidDate(d)
      modifies this
      ensures Valid()
      ensures emitted == DatePicker.DayIso(d) && !showPicker
      ensures display == Typed(FormatDateDisplay(emitted))
      ensures internal == (if valueProp.Some? then old(internal) else emitted)
      ensures valueProp == old(valueProp) && pickerPosition == old(pickerPosition)
      ensures 1000 <= d.year <= 9999 ==> ParseDate(display.text) == emitted
    {
      emitted := HandleDateSelect(DatePicker.DayIso(d));
      ClosePicker();
      if 1000 <= d.year <= 9999 {
        PickedDayRoundTrip(d);
      }
    }

    /** The panel is in the page only for an enabled date input that is open and positioned. */
    function PickerRendered(disabled: bool): (b: bool)
      reads this
      requires Valid()
      ensures b <==> kind == DateKind && showPicker && !disabled
    {
      kind == DateKind && showPicker && !disabled && pickerPosition.Some?
    }
  }
}
