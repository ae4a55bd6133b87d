/** Small value types shared by the component models. */
module Common {

  datatype Option<T> = None | Some(value: T) {
    function GetOr(default: T): T {
      match this
      case Some(v) => v
      case None => default
    }
  }

  /** A bounding box as reported by the host surface (`getBoundingClientRect`). */
  datatype Rect = Rect(left: real, top: real, width: real, height: real) {
    function Bottom(): real { top + height }
  }

  /** Screen-fixed coordinates of a floating panel. */
  datatype Position = Position(top: real, left: real, width: real)

  /** The keys the controls react to; every other key is `OtherKey`. */
  datatype Key = ArrowLeft | ArrowRight | ArrowUp | ArrowDown | Home | End | Enter | Escape | Space | OtherKey

  function MinInt(a: int, b: int): int { if a <= b then a else b }
  function MaxInt(a: int, b: int): int { if a >= b then a else b }
  function MinReal(a: real, b: real): real { if a <= b then a else b }
  function MaxReal(a: real, b: real): real { if a >= b then a else b }

  /** JavaScript's `Math.round`: the nearest integer, halves rounded up. */
  function Round(x: real): (n: int)
    ensures n as real - 0.5 <= x < n as real + 0.5
    ensures x >= 0.0 ==> n >= 0
  {
    (x + 0.5).Floor
  }

  /** `Math.max(lo, Math.min(hi, x))`: `x` pulled into `[lo, hi]`. */
  function Clamp(x: real, lo: real, hi: real): (r: real)
    requires lo <= hi
    ensures lo <= r <= hi
    ensures lo <= x <= hi ==> r == x
    ensures x < lo ==> r == lo
    ensures x > hi ==> r == hi
  {
    MaxReal(lo, MinReal(hi, x))
  }
}
