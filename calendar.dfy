/**
 * The proleptic Gregorian calendar behind JavaScript's local `Date`, as the
 * date picker (src/components/Input/DatePicker.tsx) uses it: month lengths,
 * the normalisation `new Date(y, m, d)` applies to an out-of-range month,
 * and weekdays. Months are 0-based as in JavaScript; days are 1-based.
 * A day number counts days from 0001-01-01 (day 0, a Monday).
 */
module Calendar {

  datatype Date = Date(year: int, month: int, day: int)

  predicate IsLeapYear(y: int) {
    y % 4 == 0 && (y % 100 != 0 || y % 400 == 0)
  }

  /** Days in month `m` (0..11) of year `y`. */
  function MonthLength(y: int, m: int): (n: int)
    requires 0 <= m < 12
    ensures 28 <= n <= 31
    ensures m == 1 ==> (n == 29 <==> IsLeapYear(y))
  {
    if m == 1 then (if IsLeapYear(y) then 29 else 28)
    else if m == 3 || m == 5 || m == 8 || m == 10 then 30
    else 31
  }

  predicate ValidDate(d: Date) {
    0 <= d.month < 12 && 1 <= d.day <= MonthLength(d.year, d.month)
  }

  /** The (year, month) that `new Date(year, month, …)` lands in for any month index. */
  function Normalize(year: int, month: int): (r: (int, int))
    ensures 0 <= r.1 < 12
    ensures 12 * r.0 + r.1 == 12 * year + month
  {
    (year + month / 12, month % 12)
  }

  /** `new Date(year, month + 1, 0).getDate()`: the length of the (normalised) month. */
  function DaysInMonth(month: int, year: int): (n: int)
    ensures 28 <= n <= 31
    ensures 0 <= month < 12 ==> n == MonthLength(year, month)
  {
    var (y, m) := Normalize(year, month);
    MonthLength(y, m)
  }

  /** The month before `month` of `year`, with its year. */
  function PrevMonthOf(month: int, year: int): (r: (int, int))
    requires 0 <= month < 12
    ensures 0 <= r.0 < 12
    ensures 12 * r.1 + r.0 == 12 * year + month - 1
  {
    if month == 0 then (11, year - 1) else (month - 1, year)
  }

  /** The month after `month` of `year`, with its year. */
  function NextMonthOf(month: int, year: int): (r: (int, int))
    requires 0 <= month < 12
    ensures 0 <= r.0 < 12
    ensures 12 * r.1 + r.0 == 12 * year + month + 1
  {
    if month == 11 then (0, year + 1) else (month + 1, year)
  }

  /** Going back a month and forward again is the identity, and the other way round. */
  lemma PrevNextInverse(month: int, year: int)
    requires 0 <= month < 12
    ensures NextMonthOf(PrevMonthOf(month, year).0, PrevMonthOf(month, year).1) == (month, year)
    ensures PrevMonthOf(NextMonthOf(month, year).0, NextMonthOf(month, year).1) == (month, year)
  {
  }

  /** `getDaysInMonth(currentMonth - 1, …)` is the length of the previous month. */
  lemma DaysInPreviousMonth(month: int, year: int)
    requires 0 <= month < 12
    ensures DaysInMonth(month - 1, year) == MonthLength(PrevMonthOf(month, year).1, PrevMonthOf(month, year).0)
  {
    if month == 0 {
      assert Normalize(year, -1) == (year - 1, 11);
    }
  }

  function YearLength(y: int): int {
    if IsLeapYear(y) then 366 else 365
  }

  /** Days from 0001-01-01 to January 1 of year `y` (negative before year 1). */
  function DaysBeforeYear(y: int): int {
    var p := y - 1;
    365 * p + p / 4 - p / 100 + p / 400
  }

  /** Days from January 1 to the first of month `m`. */
  function DaysBeforeMonth(y: int, m: int): int
    requires 0 <= m < 12
  {
    var base := [0, 31, 59, 90, 120, 151, 181, 212, 243, 273, 304, 334][m];
    if m >= 2 && IsLeapYear(y) then base + 1 else base
  }

  function DayNumber(d: Date): int
    requires 0 <= d.month < 12
  {
    DaysBeforeYear(d.year) + DaysBeforeMonth(d.year, d.month) + d.day - 1
  }

  /** `getDay()`: 0 for Sunday through 6 for Saturday. */
  function Weekday(d: Date): (w: int)
    requires 0 <= d.month < 12
    ensures 0 <= w < 7
  {
    (DayNumber(d) + 1) % 7
  }

  /** `new Date(year, month, 1).getDay()` for a month index in range. */
  function FirstDayOfMonth(month: int, year: int): (w: int)
    requires 0 <= month < 12
    ensures 0 <= w < 7
  {
    Weekday(Date(year, month, 1))
  }

  /** Floor division steps by one exactly at multiples. */
  lemma DivStep(n: int, k: int)
    requires k > 0
    ensures n / k - (n - 1) / k == (if n % k == 0 then 1 else 0)
  {
    var q, r := n / k, n % k;
    assert n == k * q + r;
    if r == 0 {
      assert n - 1 == k * (q - 1) + (k - 1);
      DivUnique(n - 1, k, q - 1, k - 1);
    } else {
      assert n - 1 == k * q + (r - 1);
      DivUnique(n - 1, k, q, r - 1);
    }
  }

  lemma DivUnique(n: int, k: int, q: int, r: int)
    requires k > 0 && 0 <= r < k && n == k * q + r
    ensures n / k == q
  {
    var q', r' := n / k, n % k;
    assert n == k * q' + r';
    if q' > q {
      assert k * q' >= k * (q + 1) by { MulMono(k, q + 1, q'); }
    } else if q' < q {
      assert k * q >= k * (q' + 1) by { MulMono(k, q' + 1, q); }
    }
  }

  lemma MulMono(k: int, a: int, b: int)
    requires k > 0 && a <= b
    ensures k * a <= k * b
  {
  }

  /** The year's length is the distance between consecutive new years. */
  lemma DaysBeforeNextYear(y: int)
    ensures DaysBeforeYear(y + 1) == DaysBeforeYear(y) + YearLength(y)
  {
    DivStep(y, 4);
    DivStep(y, 100);
    DivStep(y, 400);
    DividesMultiple(y, 4, 25);
    DividesMultiple(y, 100, 4);
    var p := y - 1;
    assert DaysBeforeYear(y + 1) - DaysBeforeYear(y)
        == 365 + (y / 4 - p / 4) - (y / 100 - p / 100) + (y / 400 - p / 400);
  }

  /** A multiple of `k * m` is a multiple of `k`. */
  lemma DividesMultiple(n: int, k: int, m: int)
    requires k > 0 && m > 0
    ensures n % (k * m) == 0 ==> n % k == 0
  {
    if n % (k * m) == 0 {
      var q := n / (k * m);
      assert n == (k * m) * q;
      assert n == k * (m * q);
      DivUnique(n, k, m * q, 0);
    }
  }

  /** The first of the next month comes a month's length after the first of this one. */
  lemma NextMonthStart(month: int, year: int)
    requires 0 <= month < 12
    ensures DayNumber(Date(NextMonthOf(month, year).1, NextMonthOf(month, year).0, 1))
         == DayNumber(Date(year, month, 1)) + MonthLength(year, month)
  {
    if month == 11 {
      DaysBeforeNextYear(year);
    }
  }

  /** Day numbers tell dates apart. */
  lemma DayNumberInjective(a: Date, b: Date)
    requires ValidDate(a) && ValidDate(b) && DayNumber(a) == DayNumber(b)
    ensures a == b
  {
    if a.year != b.year {
      var (lo, hi) := if a.year < b.year then (a, b) else (b, a);
      YearBounds(lo);
      YearBounds(hi);
      DaysBeforeYearMono(lo.year + 1, hi.year);
      assert false;
    } else if a.month != b.month {
      var (lo, hi) := if a.month < b.month then (a, b) else (b, a);
      MonthBounds(lo.year, lo.month, hi.month);
      assert false;
    }
  }

  /** A valid date falls inside its year. */
  lemma YearBounds(d: Date)
    requires ValidDate(d)
    ensures DaysBeforeYear(d.year) <= DayNumber(d) < DaysBeforeYear(d.year + 1)
  {
    DaysBeforeNextYear(d.year);
  }

  lemma {:induction false} DaysBeforeYearMono(a: int, b: int)
    requires a <= b
    ensures DaysBeforeYear(a) <= DaysBeforeYear(b)
    decreases b - a
  {
    if a < b {
      DaysBeforeNextYear(a);
      DaysBeforeYearMono(a + 1, b);
    }
  }

  /** Every day of an earlier month comes before the first of a later one. */
  lemma MonthBounds(y: int, m1: int, m2: int)
    requires 0 <= m1 < m2 < 12
    ensures DaysBeforeMonth(y, m1) + MonthLength(y, m1) <= DaysBeforeMonth(y, m2)
  {
  }
}
