/**
 * The Progress bar (src/components/Progress/Progress.tsx): the clamped
 * percentage, its rounded text, the fill width, which value labels show and
 * the accessible attributes. A JavaScript `NaN` (from `0 / 0`) is `None`.
 */
module Progress {
  import opened Common
  import Text

  /** `value / max * 100` in JavaScript, where only `0 / 0` has no value. */
  function Ratio(value: real, max: real): Option<real> {
    if max != 0.0 then Some(value / max * 100.0)
    else if value > 0.0 then Some(100.0)       // +Infinity, clamped below
    else if value < 0.0 then Some(0.0)         // -Infinity, clamped below
    else None
  }

  /**
   * The displayed percentage: 100 while indeterminate, otherwise the ratio
   * clamped to [0, 100].
   */
  function Percentage(value: real, max: real, indeterminate: bool): (r: Option<real>)
    ensures indeterminate ==> r == Some(100.0)
    ensures r.Some? ==> 0.0 <= r.value <= 100.0
    ensures r.None? <==> !indeterminate && max == 0.0 && value == 0.0
    ensures !indeterminate && max != 0.0 && 0.0 <= value / max * 100.0 <= 100.0 ==> r == Some(value / max * 100.0)
    ensures !indeterminate && max > 0.0 && value >= max ==> r == Some(100.0)
    ensures !indeterminate && max > 0.0 && value <= 0.0 ==> r == Some(0.0)
  {
    if indeterminate then Some(100.0)
    else match Ratio(value, max)
      case None => None
      case Some(x) =>
        RatioBounds(value, max);
        Some(Clamp(x, 0.0, 100.0))
  }

  lemma RatioBounds(value: real, max: real)
    ensures max > 0.0 && value >= max ==> value / max * 100.0 >= 100.0
    ensures max > 0.0 && value <= 0.0 ==> value / max * 100.0 <= 0.0
  {
    if max > 0.0 {
      assert value / max * max == value;
    }
  }

  /** For a positive maximum, more progress never shows a smaller percentage. */
  lemma PercentageMonotone(v1: real, v2: real, max: real)
    requires max > 0.0 && v1 <= v2
    ensures Percentage(v1, max, false).value <= Percentage(v2, max, false).value
  {
    assert v1 / max <= v2 / max by {
      assert v1 / max * max == v1;
      assert v2 / max * max == v2;
    }
  }

  /** `${Math.round(percentage)}`: the rounded percentage as text. */
  function RoundedText(pct: Option<real>): (s: string)
    requires pct.Some? ==> pct.value >= 0.0
    ensures pct.None? ==> s == "NaN"
    ensures pct.Some? ==> Text.AllDigits(s) && Text.DigitsValue(s) == Round(pct.value)
  {
    match pct
    case None => "NaN"
    case Some(x) =>
      Text.NatToStringValue(Round(x));
      Text.NatToString(Round(x))
  }

  /** The inline width of the fill. */
  datatype FillWidth = HalfWidth | PercentWidth(pct: Option<real>)

  function BarWidth(pct: Option<real>, indeterminate: bool): (w: FillWidth)
    ensures indeterminate <==> w == HalfWidth
    ensures !indeterminate ==> w.pct == pct
  {
    if indeterminate then HalfWidth else PercentWidth(pct)
  }

  datatype ValuePosition = TopPosition | InsidePosition

  /** The header row shows when there is a caption or the value belongs on top. */
  function HeaderShown(caption: string, showValue: bool, position: ValuePosition): (b: bool)
    ensures b <==> caption != [] || (showValue && position == TopPosition)
  {
    caption != [] || (showValue && position == TopPosition)
  }

  /** The value text in the header; never while indeterminate. */
  function TopValueShown(showValue: bool, position: ValuePosition, indeterminate: bool): (b: bool)
    ensures b <==> showValue && position == TopPosition && !indeterminate
  {
    showValue && position == TopPosition && !indeterminate
  }

  /** The value text inside the fill: only once the fill is wider than 10%. */
  function InsideValueShown(showValue: bool, position: ValuePosition, indeterminate: bool, pct: Option<real>): (b: bool)
    ensures b <==> showValue && position == InsidePosition && !indeterminate && pct.Some? && pct.value > 10.0
  {
    showValue && position == InsidePosition && !indeterminate && pct.Some? && pct.value > 10.0
  }

  /** At most one of the two value texts shows. */
  lemma ValueShownOnce(showValue: bool, position: ValuePosition, indeterminate: bool, pct: Option<real>)
    ensures !(TopValueShown(showValue, position, indeterminate) && InsideValueShown(showValue, position, indeterminate, pct))
  {
  }

  /** `aria-valuenow`: the raw value, absent while indeterminate. */
  function AriaValueNow(value: real, indeterminate: bool): (r: Option<real>)
    ensures indeterminate <==> r.None?
    ensures r.Some? ==> r.value == value
  {
    if indeterminate then None else Some(value)
  }

  /** `aria-label`: the caption, else "Loading" or the rounded percentage. */
  function AriaLabel(caption: string, indeterminate: bool, pct: Option<real>): (s: string)
    requires pct.Some? ==> pct.value >= 0.0
    ensures caption != [] ==> s == caption
    ensures caption == [] && indeterminate ==> s == "Loading"
    ensures caption == [] && !indeterminate ==> s == RoundedText(pct) + "% complete"
  {
    if caption != [] then caption
    else if indeterminate then "Loading"
    else RoundedText(pct) + "% complete"
  }

  /** Halfway through the default range reads "50% complete". */
  lemma HalfwayLabel()
    ensures AriaLabel("", false, Percentage(50.0, 100.0, false)) == "50% complete"
  {
    assert Round(50.0) == 50;
  }
}
