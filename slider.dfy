/**
 * The Slider's value engine (src/components/Slider/Slider.tsx): turning a
 * pointer position into a stepped value, the keyboard stepper, the rules
 * that keep the two thumbs of a range from crossing, the marks, and the
 * drag session (cached track rectangle, one pending animation frame, the
 * thumb being dragged). Numbers are reals.
 */
module Slider {
  import opened Common

  /** `min`, `max` and `step` props. */
  datatype Bounds = Bounds(min: real, max: real, step: real)

  /** A non-empty interval and a positive step. */
  predicate ValidBounds(b: Bounds) {
    b.min < b.max && b.step > 0.0
  }

  /** A single value or a `[minVal, maxVal]` range. */
  datatype SliderValue = Single(v: real) | Range(lo: real, hi: real)

  /** The thumb a handler is attached to. */
  datatype Thumb = SingleThumb | MinThumb | MaxThumb

  /** Every value inside the bounds, and a range in order. */
  predicate WellOrdered(v: SliderValue, b: Bounds) {
    match v
    case Single(x) => b.min <= x <= b.max
    case Range(lo, hi) => b.min <= lo <= hi <= b.max
  }

  /** `x` is a whole number of steps away from 0. */
  predicate IsStepMultiple(x: real, step: real)
    requires step > 0.0
  {
    (x / step).Floor as real == x / step
  }

  /** `Math.round(raw / step) * step`, counted from 0. */
  function Snap(raw: real, step: real): real
    requires step > 0.0
  {
    Round(raw / step) as real * step
  }

  /** Snapping gives the nearest multiple of the step (halves go up). */
  lemma SnapNearest(raw: real, step: real)
    requires step > 0.0
    ensures IsStepMultiple(Snap(raw, step), step)
    ensures raw - step / 2.0 < Snap(raw, step) <= raw + step / 2.0
  {
    var k := Round(raw / step);
    var s := k as real * step;
    assert s == Snap(raw, step);
    assert s / step == k as real;
    assert (s / step).Floor == k;
    MulLe(raw / step - 0.5, k as real, step);
    MulLe(k as real, raw / step + 0.5, step);
    assert (raw / step - 0.5) * step == raw - step / 2.0;
    assert (raw / step + 0.5) * step == raw + step / 2.0;
  }

  lemma MulLe(a: real, c: real, step: real)
    requires step > 0.0
    ensures a <= c ==> a * step <= c * step
    ensures a < c ==> a * step < c * step
  {
  }

  lemma DivLe(a: real, c: real, d: real)
    requires d > 0.0 && a <= c
    ensures a / d <= c / d
  {
    assert a / d * d == a && c / d * d == c;
  }

  /** A multiple of the step snaps to itself. */
  lemma SnapFixesMultiples(x: real, step: real)
    requires step > 0.0 && IsStepMultiple(x, step)
    ensures Snap(x, step) == x
  {
    var k := (x / step).Floor;
    assert x == k as real * step;
    assert Round(x / step) == k;
  }

  lemma RoundMono(x: real, y: real)
    requires x <= y
    ensures Round(x) <= Round(y)
  {
  }

  /** The pointer's fraction along the track, held to `[0, 1]`. */
  function Fraction(clientX: real, rect: Rect): (f: real)
    requires rect.width > 0.0
    ensures 0.0 <= f <= 1.0
  {
    Clamp((clientX - rect.left) / rect.width, 0.0, 1.0)
  }

  /**
   * `getValueFromPosition`: the fraction scaled to `[min, max]`, snapped to
   * the step and clamped; `min` when no track rectangle is known.
   */
  function ValueFromPosition(clientX: real, rect: Option<Rect>, b: Bounds): (r: real)
    requires ValidBounds(b)
    requires rect.Some? ==> rect.value.width > 0.0
    ensures rect.None? ==> r == b.min
    ensures b.min <= r <= b.max
    ensures b.min < r < b.max ==> IsStepMultiple(r, b.step)
  {
    match rect
    case None => b.min
    case Some(t) =>
      var raw := Scaled(Fraction(clientX, t), b);
      SnapNearest(raw, b.step);
      Clamp(Snap(raw, b.step), b.min, b.max)
  }

  /** `getPercentage`: where `val` sits between `min` and `max`, in percent. */
  function Percentage(val: real, b: Bounds): (p: real)
    requires ValidBounds(b)
    ensures val == b.min ==> p == 0.0
    ensures val == b.max ==> p == 100.0
    ensures b.min <= val <= b.max ==> 0.0 <= p <= 100.0
  {
    assert 1.0 / (b.max - b.min) > 0.0;
    MulLe(0.0, val - b.min, 1.0 / (b.max - b.min));
    MulLe(val - b.min, b.max - b.min, 1.0 / (b.max - b.min));
    (val - b.min) / (b.max - b.min) * 100.0
  }

  /** The pointer position at which the track shows `val`. */
  function PositionOf(val: real, rect: Rect, b: Bounds): real
    requires ValidBounds(b)
  {
    rect.left + Percentage(val, b) / 100.0 * rect.width
  }

  /** Clicking where a reachable value is drawn gives back that value. */
  lemma PositionRoundTrip(val: real, rect: Rect, b: Bounds)
    requires ValidBounds(b) && rect.width > 0.0
    requires b.min <= val <= b.max && IsStepMultiple(val, b.step)
    ensures ValueFromPosition(PositionOf(val, rect, b), Some(rect), b) == val
  {
    var f := (val - b.min) / (b.max - b.min);
    assert Percentage(val, b) / 100.0 == f;
    assert (PositionOf(val, rect, b) - rect.left) / rect.width == f;
    DivLe(0.0, val - b.min, b.max - b.min);
    DivLe(val - b.min, b.max - b.min, b.max - b.min);
    assert 0.0 <= f <= 1.0;
    assert Fraction(PositionOf(val, rect, b), rect) == f;
    assert Scaled(f, b) == val;
    SnapFixesMultiples(val, b.step);
  }

  /** Further right on the track never gives a smaller value. */
  lemma ValueFromPositionMonotone(x: real, y: real, rect: Rect, b: Bounds)
    requires ValidBounds(b) && rect.width > 0.0 && x <= y
    ensures ValueFromPosition(x, Some(rect), b) <= ValueFromPosition(y, Some(rect), b)
  {
    FractionMono(x, y, rect);
    var rx, ry := Scaled(Fraction(x, rect), b), Scaled(Fraction(y, rect), b);
    ScaledMono(Fraction(x, rect), Fraction(y, rect), b);
    SnapMono(rx, ry, b.step);
    ClampMono(Snap(rx, b.step), Snap(ry, b.step), b.min, b.max);
  }

  /** `min + fraction * (max - min)`. */
  function Scaled(f: real, b: Bounds): real {
    b.min + f * (b.max - b.min)
  }

  lemma ScaledMono(f: real, g: real, b: Bounds)
    requires f <= g && b.min < b.max
    ensures Scaled(f, b) <= Scaled(g, b)
  {
    MulLe(f, g, b.max - b.min);
  }

  lemma FractionMono(x: real, y: real, rect: Rect)
    requires rect.width > 0.0 && x <= y
    ensures Fraction(x, rect) <= Fraction(y, rect)
  {
    DivLe(x - rect.left, y - rect.left, rect.width);
    ClampMono((x - rect.left) / rect.width, (y - rect.left) / rect.width, 0.0, 1.0);
  }

  lemma ClampMono(x: real, y: real, lo: real, hi: real)
    requires lo <= hi && x <= y
    ensures Clamp(x, lo, hi) <= Clamp(y, lo, hi)
  {
  }

  lemma SnapMono(x: real, y: real, step: real)
    requires step > 0.0 && x <= y
    ensures Snap(x, step) <= Snap(y, step)
  {
    DivLe(x, y, step);
    RoundMono(x / step, y / step);
    MulLe(Round(x / step) as real, Round(y / step) as real, step);
  }

  /**
   * Snapping counts steps from 0, not from `min`: with min 1, max 10 and
   * step 2 the left end of the track gives 2, which no number of steps
   * from `min` reaches.
   */
  lemma SnapCountsFromZero(rect: Rect)
    requires rect.width > 0.0
    ensures ValueFromPosition(rect.left, Some(rect), Bounds(1.0, 10.0, 2.0)) == 2.0
  {
    var b := Bounds(1.0, 10.0, 2.0);
    assert Fraction(rect.left, rect) == 0.0;
    assert Round(0.5) == 1;
  }

  /**
   * `handleKeyDown` for one thumb: the value to commit, or `None` when the
   * key is not handled or the thumb does not fit the current value.
   */
  function KeyResult(thumb: Thumb, current: SliderValue, key: Key, b: Bounds): (r: Option<SliderValue>)
    ensures r.Some? ==> key in {ArrowLeft, ArrowDown, ArrowRight, ArrowUp, Home, End}
    ensures r.Some? && thumb == SingleThumb ==> current.Single? && r.value.Single?
    ensures r.Some? && thumb == MinThumb ==> current.Range? && r.value.Range? && r.value.hi == current.hi
    ensures r.Some? && thumb == MaxThumb ==> current.Range? && r.value.Range? && r.value.lo == current.lo
  {
    var dec := key == ArrowLeft || key == ArrowDown;
    var inc := key == ArrowRight || key == ArrowUp;
    if !(dec || inc || key == Home || key == End) then None
    else match (thumb, current)
      case (SingleThumb, Single(v)) =>
        Some(Single(
          if dec then MaxReal(b.min, v - b.step)
          else if inc then MinReal(b.max, v + b.step)
          else if key == Home then b.min
          else b.max))
      case (MinThumb, Range(lo, hi)) =>
        Some(Range(
          if dec then MaxReal(b.min, lo - b.step)
          else if inc then MinReal(hi, lo + b.step)
          else if key == Home then b.min
          else hi, hi))
      case (MaxThumb, Range(lo, hi)) =>
        Some(Range(lo,
          if dec then MaxReal(lo, hi - b.step)
          else if inc then MinReal(b.max, hi + b.step)
          else if key == Home then lo
          else b.max))
      case _ => None
  }

  /** The single-thumb keys: one step down or up within the bounds, or to an end. */
  lemma SingleKeys(v: real, b: Bounds)
    ensures KeyResult(SingleThumb, Single(v), ArrowLeft, b) == Some(Single(MaxReal(b.min, v - b.step)))
    ensures KeyResult(SingleThumb, Single(v), ArrowDown, b) == Some(Single(MaxReal(b.min, v - b.step)))
    ensures KeyResult(SingleThumb, Single(v), ArrowRight, b) == Some(Single(MinReal(b.max, v + b.step)))
    ensures KeyResult(SingleThumb, Single(v), ArrowUp, b) == Some(Single(MinReal(b.max, v + b.step)))
    ensures KeyResult(SingleThumb, Single(v), Home, b) == Some(Single(b.min))
    ensures KeyResult(SingleThumb, Single(v), End, b) == Some(Single(b.max))
    ensures forall k :: k !in {ArrowLeft, ArrowDown, ArrowRight, ArrowUp, Home, End} ==>
              KeyResult(SingleThumb, Single(v), k, b).None?
  {
  }

  /** End on the min thumb stops at the max thumb; Home on the max thumb stops at the min thumb. */
  lemma RangeKeysStopAtOtherThumb(lo: real, hi: real, b: Bounds)
    ensures KeyResult(MinThumb, Range(lo, hi), End, b) == Some(Range(hi, hi))
    ensures KeyResult(MaxThumb, Range(lo, hi), Home, b) == Some(Range(lo, lo))
    ensures KeyResult(MinThumb, Range(lo, hi), ArrowRight, b) == Some(Range(MinReal(hi, lo + b.step), hi))
    ensures KeyResult(MaxThumb, Range(lo, hi), ArrowLeft, b) == Some(Range(lo, MaxReal(lo, hi - b.step)))
  {
  }

  /** No key moves a value out of bounds or makes the thumbs cross. */
  lemma KeysKeepOrder(thumb: Thumb, current: SliderValue, key: Key, b: Bounds)
    requires ValidBounds(b) && WellOrdered(current, b)
    ensures KeyResult(thumb, current, key, b).Some? ==> WellOrdered(KeyResult(thumb, current, key, b).value, b)
  {
  }

  /**
   * The frame callback of a drag: the single thumb takes the new value; a
   * range thumb takes it but stops at the other thumb.
   */
  function DragCommit(thumb: Thumb, current: SliderValue, newValue: real): (r: Option<SliderValue>)
    ensures thumb == SingleThumb <==> r == Some(Single(newValue))
    ensures thumb != SingleThumb ==> (r.Some? <==> current.Range?)
    ensures r.Some? && thumb == MinThumb ==>
              r.value == Range(MinReal(newValue, current.hi), current.hi) && r.value.lo <= r.value.hi
    ensures r.Some? && thumb == MaxThumb ==>
              r.value == Range(current.lo, MaxReal(newValue, current.lo)) && r.value.lo <= r.value.hi
  {
    match (thumb, current)
    case (SingleThumb, _) => Some(Single(newValue))
    case (MinThumb, Range(lo, hi)) => Some(Range(MinReal(newValue, hi), hi))
    case (MaxThumb, Range(lo, hi)) => Some(Range(lo, MaxReal(newValue, lo)))
    case _ => None
  }

  /** A drag to any in-bounds value keeps a well-ordered value well ordered. */
  lemma DragKeepsOrder(thumb: Thumb, current: SliderValue, newValue: real, b: Bounds)
    requires WellOrdered(current, b) && b.min <= newValue <= b.max
    ensures DragCommit(thumb, current, newValue).Some? ==> WellOrdered(DragCommit(thumb, current, newValue).value, b)
  {
  }

  /** `handleTrackClick`'s choice: a range moves the thumb on the clicked side of the midpoint. */
  function TrackClickCommit(current: SliderValue, newValue: real): (r: SliderValue)
    ensures current.Single? ==> r == Single(newValue)
    ensures current.Range? ==> r.Range?
    ensures current.Range? && newValue < (current.lo + current.hi) / 2.0 ==> r == Range(newValue, current.hi)
    ensures current.Range? && newValue >= (current.lo + current.hi) / 2.0 ==> r == Range(current.lo, newValue)
  {
    match current
    case Single(_) => Single(newValue)
    case Range(lo, hi) =>
      if newValue < (lo + hi) / 2.0 then Range(newValue, hi) else Range(lo, newValue)
  }

  /** The moved thumb is one nearest to the click, and the range stays in order. */
  lemma TrackClickMovesNearestThumb(lo: real, hi: real, newValue: real, b: Bounds)
    requires b.min <= lo <= hi <= b.max && b.min <= newValue <= b.max
    ensures WellOrdered(TrackClickCommit(Range(lo, hi), newValue), b)
    ensures TrackClickCommit(Range(lo, hi), newValue).lo != lo ==> Dist(newValue, lo) <= Dist(newValue, hi)
    ensures TrackClickCommit(Range(lo, hi), newValue).hi != hi ==> Dist(newValue, hi) <= Dist(newValue, lo)
  {
  }

  function Dist(x: real, y: real): real {
    if x >= y then x - y else y - x
  }

  /** The `marks` prop: absent or false, `true`, or explicit values. */
  datatype Marks = NoMarks | AutoMarks | ExplicitMarks(values: seq<real>)

  /** The explicit marks inside `[min, max]`, in their given order. */
  function InBounds(values: seq<real>, b: Bounds): (r: seq<real>)
    ensures |r| <= |values|
    ensures forall x :: x in r <==> x in values && b.min <= x <= b.max
  {
    if values == [] then []
    else (if b.min <= values[0] <= b.max then [values[0]] else []) + InBounds(values[1..], b)
  }

  /** Filtering distributes over concatenation, so it keeps the marks' order. */
  lemma {:induction false} InBoundsAppend(xs: seq<real>, ys: seq<real>, b: Bounds)
    ensures InBounds(xs + ys, b) == InBounds(xs, b) + InBounds(ys, b)
  {
    if xs == [] {
      assert xs + ys == ys;
    } else {
      assert (xs + ys)[1..] == xs[1..] + ys;
      InBoundsAppend(xs[1..], ys, b);
    }
  }

  /** `getMarks`: explicit marks filtered to the bounds; `true` gives five evenly spaced values. */
  function GetMarks(marks: Marks, b: Bounds): (r: seq<real>)
    ensures marks.NoMarks? ==> r == []
    ensures marks.ExplicitMarks? ==> r == InBounds(marks.values, b)
    ensures marks.AutoMarks? ==> |r| == 5 && r[0] == b.min && r[4] == b.max
    ensures marks.AutoMarks? ==> forall i :: 0 <= i < 4 ==> r[i + 1] - r[i] == (b.max - b.min) / 4.0
  {
    match marks
    case NoMarks => []
    case ExplicitMarks(values) => InBounds(values, b)
    case AutoMarks =>
      var markStep := (b.max - b.min) / 4.0;
      seq(5, i => b.min + i as real * markStep)
  }

  /** The fill bar: offset and width in percent. */
  function Fill(current: SliderValue, b: Bounds): (r: (real, real))
    requires ValidBounds(b)
  {
    match current
    case Single(v) => (0.0, Percentage(v, b))
    case Range(lo, hi) => (Percentage(lo, b), Percentage(hi, b) - Percentage(lo, b))
  }

  /** A well-ordered value's fill lies on the track. */
  lemma FillOnTrack(current: SliderValue, b: Bounds)
    requires ValidBounds(b) && WellOrdered(current, b)
    ensures 0.0 <= Fill(current, b).0 && 0.0 <= Fill(current, b).1
    ensures Fill(current, b).0 + Fill(current, b).1 <= 100.0
  {
    if current.Range? {
      PercentageMono(current.lo, current.hi, b);
    }
  }

  /** A larger value sits further along the track. */
  lemma PercentageMono(x: real, y: real, b: Bounds)
    requires ValidBounds(b) && x <= y
    ensures Percentage(x, b) <= Percentage(y, b)
  {
    DivLe(x - b.min, y - b.min, b.max - b.min);
    MulLe((x - b.min) / (b.max - b.min), (y - b.min) / (b.max - b.min), 100.0);
  }

  /**
   * A slider instance: the internal value (used when `value` is not
   * given) and the drag session.
   */
  class SliderCell {
    const bounds: Bounds
    var valueProp: Option<SliderValue>
    var internal: SliderValue
    var dragging: Option<Thumb>
    var trackRect: Option<Rect>
    var pendingFrame: Option<real>

    /** Outside a drag there is no cached rectangle and no pending frame. */
    predicate Valid()
      reads this
    {
      && ValidBounds(bounds)
      && (dragging.None? ==> trackRect.None? && pendingFrame.None?)
      && (trackRect.Some? ==> trackRect.value.width > 0.0)
    }

    /** `value` when given, else the internal value. */
    function Current(): (v: SliderValue)
      reads this
      ensures valueProp.Some? ==> v == valueProp.value
      ensures valueProp.None? ==> v == internal
    {
      valueProp.GetOr(internal)
    }

    /** The internal value starts at `value`, or `min` when there is none. */
    constructor (bounds: Bounds, valueProp: Option<SliderValue>)
      requires ValidBounds(bounds)
      ensures Valid()
      ensures this.bounds == bounds && this.valueProp == valueProp
      ensures internal == valueProp.GetOr(Single(bounds.min))
      ensures dragging.None?
      ensures valueProp.None? ==> WellOrdered(Current(), bounds)
    {
      this.bounds := bounds;
      this.valueProp := valueProp;
      internal := valueProp.GetOr(Single(bounds.min));
      dragging := None;
      trackRect := None;
      pendingFrame := None;
    }

    /** `handleValueChange`: store only when uncontrolled; always report. */
    method HandleValueChange(newValue: SliderValue) returns (emitted: SliderValue)
      requires Valid()
      modifies this
      ensures Valid()
      ensures emitted == newValue
      ensures internal == (if valueProp.None? then newValue else old(internal))
      ensures valueProp.None? ==> Current() == newValue
      ensures valueProp == old(valueProp) && dragging == old(dragging)
      ensures trackRect == old(trackRect) && pendingFrame == old(pendingFrame)
    {
      if valueProp.None? {
        internal := newValue;
      }
      emitted := newValue;
    }

    /** Pointer down on a thumb: cache the measured track and start dragging it. */
    method PointerDown(thumb: Thumb, disabled: bool, measured: Option<Rect>)
      requires Valid()
      requires measured.Some? ==> measured.value.width > 0.0
      modifies this
      ensures Valid()
      ensures disabled ==> dragging == old(dragging) && trackRect == old(trackRect)
      ensures !disabled ==> dragging == Some(thumb)
      ensures !disabled && measured.Some? ==> trackRect == measured
      ensures !disabled && measured.None? ==> trackRect == old(trackRect)
      ensures pendingFrame == old(pendingFrame)
      ensures valueProp == old(valueProp) && internal == old(internal)
    {
      if !disabled {
        if measured.Some? {
          trackRect := measured;
        }
        dragging := Some(thumb);
      }
    }

    /** A pointer move during a drag replaces the pending frame with one for the new position. */
    method PointerMove(clientX: real)
      requires Valid()
      modifies this
      ensures Valid()
      ensures pendingFrame == (if dragging.Some? then Some(clientX) else old(pendingFrame))
      ensures dragging == old(dragging) && trackRect == old(trackRect)
      ensures valueProp == old(valueProp) && internal == old(internal)
    {
      if dragging.Some? {
        pendingFrame := Some(clientX);
      }
    }

    /**
     * The pending frame runs: the position becomes a value (cached
     * rectangle first, else a fresh measure) and the dragged thumb commits it.
     */
    method AnimationFrame(measured: Option<Rect>) returns (emitted: Option<SliderValue>)
      requires Valid()
      requires measured.Some? ==> measured.value.width > 0.0
      modifies this
      ensures Valid()
      ensures pendingFrame.None?
      ensures old(pendingFrame).None? ==> emitted.None? && internal == old(internal)
      ensures old(pendingFrame).Some? ==>
                var rect := if old(trackRect).Some? then old(trackRect) else measured;
                emitted == DragCommit(old(dragging).value, old(Current()),
                                      ValueFromPosition(old(pendingFrame).value, rect, bounds))
      ensures emitted.Some? && valueProp.None? ==> internal == emitted.value
      ensures emitted.None? || valueProp.Some? ==> internal == old(internal)
      ensures WellOrdered(old(Current()), bounds) && valueProp.None? ==> WellOrdered(Current(), bounds)
      ensures dragging == old(dragging) && trackRect == old(trackRect) && valueProp == old(valueProp)
    {
      emitted := None;
      if pendingFrame.Some? {
        var rect := if trackRect.Some? then trackRect else measured;
        var newValue := ValueFromPosition(pendingFrame.value, rect, bounds);
        emitted := DragCommit(dragging.value, Current(), newValue);
        if WellOrdered(Current(), bounds) {
          DragKeepsOrder(dragging.value, Current(), newValue, bounds);
        }
        if emitted.Some? {
          var _ := HandleValueChange(emitted.value);
        }
        pendingFrame := None;
      }
    }

    /** Pointer up: cancel the pending frame and end the session. */
    method PointerUp()
      requires Valid()
      modifies this
      ensures Valid()
      ensures dragging.None? && trackRect.None? && pendingFrame.None?
      ensures valueProp == old(valueProp) && internal == old(internal)
    {
      pendingFrame := None;
      trackRect := None;
      dragging := None;
    }

    /** A click on the track, ignored when disabled or during a drag. */
    method TrackClick(disabled: bool, clientX: real, measured: Option<Rect>) returns (emitted: Option<SliderValue>)
      requires Valid()
      requires measured.Some? ==> measured.value.width > 0.0
      modifies this
      ensures Valid()
      ensures disabled || old(dragging).Some? ==> emitted.None? && internal == old(internal)
      ensures !disabled && old(dragging).None? ==>
                emitted == Some(TrackClickCommit(old(Current()), ValueFromPosition(clientX, measured, bounds)))
      ensures emitted.Some? && valueProp.None? ==> internal == emitted.value
      ensures emitted.None? || valueProp.Some? ==> internal == old(internal)
      ensures WellOrdered(old(Current()), bounds) && valueProp.None? ==> WellOrdered(Current(), bounds)
      ensures dragging == old(dragging) && trackRect == old(trackRect)
      ensures pendingFrame == old(pendingFrame) && valueProp == old(valueProp)
    {
      emitted := None;
      if !disabled && dragging.None? {
        var rect := if trackRect.Some? then trackRect else measured;
        var newValue := ValueFromPosition(clientX, rect, bounds);
        var committed := TrackClickCommit(Current(), newValue);
        if Current().Range? && WellOrdered(Current(), bounds) {
          TrackClickMovesNearestThumb(Current().lo, Current().hi, newValue, bounds);
        }
        emitted := Some(committed);
        var _ := HandleValueChange(committed);
      }
    }

    /** A key on a thumb, ignored when disabled. */
    method KeyDown(disabled: bool, thumb: Thumb, key: Key) returns (emitted: Option<SliderValue>)
      requires Valid()
      modifies this
      ensures Valid()
      ensures emitted == (if disabled then None else KeyResult(thumb, old(Current()), key, bounds))
      ensures emitted.Some? && valueProp.None? ==> internal == emitted.value
      ensures emitted.None? || valueProp.Some? ==> internal == old(internal)
      ensures WellOrdered(old(Current()), bounds) && valueProp.None? ==> WellOrdered(Current(), bounds)
      ensures dragging == old(dragging) && trackRect == old(trackRect)
      ensures pendingFrame == old(pendingFrame) && valueProp == old(valueProp)
    {
      emitted := None;
      if !disabled {
        emitted := KeyResult(thumb, Current(), key, bounds);
        if WellOrdered(Current(), bounds) {
          KeysKeepOrder(thumb, Current(), key, bounds);
        }
        if emitted.Some? {
          var _ := HandleValueChange(emitted.value);
        }
      }
    }
  }
}
