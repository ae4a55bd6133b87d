/**
 * The Button control (src/components/Button/Button.tsx): the disabled rule,
 * what the content shows, the optional alignment wrapper, and the margin
 * props resolved by precedence into spacing classes.
 */
module Button {
  import opened Common
  import opened Classes

  /** The seven margin props; `None` is an absent prop. */
  datatype MarginProps = MarginProps(
    marginTop: Option<SpacingScale>,
    marginBottom: Option<SpacingScale>,
    marginLeft: Option<SpacingScale>,
    marginRight: Option<SpacingScale>,
    margin: Option<SpacingScale>,
    marginVertical: Option<SpacingScale>,
    marginHorizontal: Option<SpacingScale>)

  /**
   * The margin entries Button passes to `cn`, in order: the `margin` entry,
   * the axis entries unless `margin` is set, and each side entry unless
   * `margin` or that side's axis is set.
   */
  function MarginEntries(p: MarginProps): seq<(Direction, SpacingScale)> {
    Entry(true, All, p.margin)
    + Entry(p.margin.None?, Vertical, p.marginVertical)
    + Entry(p.margin.None?, Horizontal, p.marginHorizontal)
    + Entry(p.margin.None? && p.marginVertical.None?, Top, p.marginTop)
    + Entry(p.margin.None? && p.marginVertical.None?, Bottom, p.marginBottom)
    + Entry(p.margin.None? && p.marginHorizontal.None?, Left, p.marginLeft)
    + Entry(p.margin.None? && p.marginHorizontal.None?, Right, p.marginRight)
  }

  /** One `guard && prop && marginClasses[d][prop]` operand of `cn`. */
  function Entry(guard: bool, d: Direction, prop: Option<SpacingScale>): seq<(Direction, SpacingScale)> {
    if guard && prop.Some? then [(d, prop.value)] else []
  }

  /** The margin classes of the button element, in the order they are emitted. */
  function MarginClassList(p: MarginProps): (cs: seq<string>)
    ensures |cs| == |MarginEntries(p)|
    ensures forall i :: 0 <= i < |cs| ==> cs[i] == MarginClass(MarginEntries(p)[i].0, MarginEntries(p)[i].1)
  {
    var es := MarginEntries(p);
    seq(|es|, i requires 0 <= i < |es| => MarginClass(es[i].0, es[i].1))
  }

  datatype Side = TopSide | BottomSide | LeftSide | RightSide

  /** The sides a margin class of direction `d` sets. */
  predicate Covers(d: Direction, s: Side) {
    match d
    case All => true
    case Vertical => s == TopSide || s == BottomSide
    case Horizontal => s == LeftSide || s == RightSide
    case Top => s == TopSide
    case Bottom => s == BottomSide
    case Left => s == LeftSide
    case Right => s == RightSide
  }

  /**
   * The documented precedence, side by side: `margin` over the axis prop
   * over the side's own prop.
   */
  function EffectiveMargin(p: MarginProps, s: Side): Option<SpacingScale> {
    if p.margin.Some? then p.margin
    else
      var axis := if s == TopSide || s == BottomSide then p.marginVertical else p.marginHorizontal;
      if axis.Some? then axis
      else match s
        case TopSide => p.marginTop
        case BottomSide => p.marginBottom
        case LeftSide => p.marginLeft
        case RightSide => p.marginRight
  }

  /** The spacing steps of the entries in `es` that set side `s`, in order. */
  function StepsFor(es: seq<(Direction, SpacingScale)>, s: Side): seq<SpacingScale> {
    if es == [] then []
    else (if Covers(es[0].0, s) then [es[0].1] else []) + StepsFor(es[1..], s)
  }

  lemma {:induction false} StepsForAppend(a: seq<(Direction, SpacingScale)>, b: seq<(Direction, SpacingScale)>, s: Side)
    ensures StepsFor(a + b, s) == StepsFor(a, s) + StepsFor(b, s)
  {
    if a == [] {
      assert a + b == b;
    } else {
      var h := if Covers(a[0].0, s) then [a[0].1] else [];
      assert (a + b)[0] == a[0];
      assert (a + b)[1..] == a[1..] + b;
      StepsForAppend(a[1..], b, s);
      assert StepsFor(a + b, s) == h + (StepsFor(a[1..], s) + StepsFor(b, s));
      assert h + (StepsFor(a[1..], s) + StepsFor(b, s)) == (h + StepsFor(a[1..], s)) + StepsFor(b, s);
    }
  }

  /**
   * The emitted classes never fight: exactly the precedence winner of each
   * side sets it, and no other entry touches that side.
   */
  lemma MarginEntriesResolvePrecedence(p: MarginProps, s: Side)
    ensures StepsFor(MarginEntries(p), s) == (if EffectiveMargin(p, s).Some? then [EffectiveMargin(p, s).value] else [])
  {
    MarginEntriesSteps(p, s);
  }

  /** The steps one guarded entry contributes to side `s`. */
  function EntrySteps(guard: bool, d: Direction, prop: Option<SpacingScale>, s: Side): seq<SpacingScale> {
    if guard && prop.Some? && Covers(d, s) then [prop.value] else []
  }

  /** The steps of the seven entries, entry by entry. */
  lemma MarginEntriesSteps(p: MarginProps, s: Side)
    ensures StepsFor(MarginEntries(p), s)
            == EntrySteps(true, All, p.margin, s)
             + EntrySteps(p.margin.None?, Vertical, p.marginVertical, s)
             + EntrySteps(p.margin.None?, Horizontal, p.marginHorizontal, s)
             + EntrySteps(p.margin.None? && p.marginVertical.None?, Top, p.marginTop, s)
             + EntrySteps(p.margin.None? && p.marginVertical.None?, Bottom, p.marginBottom, s)
             + EntrySteps(p.margin.None? && p.marginHorizontal.None?, Left, p.marginLeft, s)
             + EntrySteps(p.margin.None? && p.marginHorizontal.None?, Right, p.marginRight, s)
  {
    var b1 := Entry(true, All, p.margin);
    var b2 := Entry(p.margin.None?, Vertical, p.marginVertical);
    var b3 := Entry(p.margin.None?, Horizontal, p.marginHorizontal);
    var b4 := Entry(p.margin.None? && p.marginVertical.None?, Top, p.marginTop);
    var b5 := Entry(p.margin.None? && p.marginVertical.None?, Bottom, p.marginBottom);
    var b6 := Entry(p.margin.None? && p.marginHorizontal.None?, Left, p.marginLeft);
    var b7 := Entry(p.margin.None? && p.marginHorizontal.None?, Right, p.marginRight);
    StepsForAppend(b1 + b2 + b3 + b4 + b5 + b6, b7, s);
    StepsForAppend(b1 + b2 + b3 + b4 + b5, b6, s);
    StepsForAppend(b1 + b2 + b3 + b4, b5, s);
    StepsForAppend(b1 + b2 + b3, b4, s);
    StepsForAppend(b1 + b2, b3, s);
    StepsForAppend(b1, b2, s);
    StepsForEntry(true, All, p.margin, s);
    StepsForEntry(p.margin.None?, Vertical, p.marginVertical, s);
    StepsForEntry(p.margin.None?, Horizontal, p.marginHorizontal, s);
    StepsForEntry(p.margin.None? && p.marginVertical.None?, Top, p.marginTop, s);
    StepsForEntry(p.margin.None? && p.marginVertical.None?, Bottom, p.marginBottom, s);
    StepsForEntry(p.margin.None? && p.marginHorizontal.None?, Left, p.marginLeft, s);
    StepsForEntry(p.margin.None? && p.marginHorizontal.None?, Right, p.marginRight, s);
  }

  lemma StepsForEntry(guard: bool, d: Direction, prop: Option<SpacingScale>, s: Side)
    ensures StepsFor(Entry(guard, d, prop), s) == EntrySteps(guard, d, prop, s)
  {
    if guard && prop.Some? {
      assert Entry(guard, d, prop)[1..] == [];
    }
  }

  /** When `margin` is given, it is the only margin class. */
  lemma MarginPropWins(p: MarginProps)
    requires p.margin.Some?
    ensures MarginClassList(p) == [MarginClass(All, p.margin.value)]
  {
  }

  /** A vertical margin makes `marginTop` and `marginBottom` irrelevant. */
  lemma VerticalOverridesSides(p: MarginProps, top: Option<SpacingScale>, bottom: Option<SpacingScale>)
    requires p.marginVertical.Some?
    ensures MarginClassList(p.(marginTop := top, marginBottom := bottom)) == MarginClassList(p)
  {
    assert MarginEntries(p.(marginTop := top, marginBottom := bottom)) == MarginEntries(p);
  }

  /** A horizontal margin makes `marginLeft` and `marginRight` irrelevant. */
  lemma HorizontalOverridesSides(p: MarginProps, left: Option<SpacingScale>, right: Option<SpacingScale>)
    requires p.marginHorizontal.Some?
    ensures MarginClassList(p.(marginLeft := left, marginRight := right)) == MarginClassList(p)
  {
    assert MarginEntries(p.(marginLeft := left, marginRight := right)) == MarginEntries(p);
  }

  /** The native `disabled` attribute: set while disabled or loading. */
  function NativeDisabled(disabled: bool, loading: bool): (r: bool)
    ensures r <==> disabled || loading
    ensures loading ==> r
  {
    disabled || loading
  }

  /** What the button shows: the spinner text while loading, otherwise icons around the label. */
  datatype Content = LoadingContent | LabelContent(leftIcon: bool, caption: string, rightIcon: bool)

  function ButtonContent(caption: string, loading: bool, leftIcon: bool, rightIcon: bool): (c: Content)
    ensures loading <==> c == LoadingContent
    ensures !loading ==> c.caption == caption && c.leftIcon == leftIcon && c.rightIcon == rightIcon
  {
    if loading then LoadingContent else LabelContent(leftIcon, caption, rightIcon)
  }

  /** The wrapper class list around the button; full-width buttons are not wrapped. */
  function WrapperClasses(fullWidth: bool, align: Align): (w: Option<seq<string>>)
    ensures fullWidth <==> w.None?
    ensures !fullWidth ==> w.value == ["flex", AlignClass(align)]
  {
    if fullWidth then None else Some(["flex", AlignClass(align)])
  }
}
