/**
 * The date picker panel (src/components/Input/DatePicker.tsx): the 42-cell
 * month grid, month navigation, today / selected highlighting, the ISO text
 * emitted on a day click and the panel's fixed-position style.
 */
module DatePicker {
  import opened Common
  import opened Calendar
  import Text

  /** One grid cell: the number shown, whether it belongs to the shown month, and its date. */
  datatype DayCell = DayCell(day: int, isCurrentMonth: bool, date: Date)

  const GridSize: nat := 42

  /**
   * Cell `i` of the grid for `month` of `year`: the tail of the previous
   * month up to the first weekday, the month itself, then the start of the
   * next month.
   */
  function Cell(month: int, year: int, i: int): DayCell
    requires 0 <= month < 12 && 0 <= i < GridSize
  {
    var first := FirstDayOfMonth(month, year);
    var dim := DaysInMonth(month, year);
    if i < first then
      var (pm, py) := PrevMonthOf(month, year);
      var day := DaysInMonth(month - 1, year) - (first - 1 - i);
      DayCell(day, false, Date(py, pm, day))
    else if i < first + dim then
      DayCell(i - first + 1, true, Date(year, month, i - first + 1))
    else
      var (nm, ny) := NextMonthOf(month, year);
      DayCell(i - first - dim + 1, false, Date(ny, nm, i - first - dim + 1))
  }

  /**
   * `generateCalendarDays`: three loops pushing the leading, current and
   * trailing cells; the result is always the 42 cells of `Cell`.
   */
  method GenerateCalendarDays(month: int, year: int) returns (days: seq<DayCell>)
    requires 0 <= month < 12
    ensures |days| == GridSize
    ensures forall i :: 0 <= i < GridSize ==> days[i] == Cell(month, year, i)
  {
    var daysInMonth := DaysInMonth(month, year);
    var firstDay := FirstDayOfMonth(month, year);
    var daysInPrevMonth := DaysInMonth(month - 1, year);
    days := [];
    var i := firstDay - 1;
    while i >= 0
      invariant -1 <= i < firstDay
      invariant |days| == firstDay - 1 - i
      invariant forall j :: 0 <= j < |days| ==> days[j] == Cell(month, year, j)
    {
      var day := daysInPrevMonth - i;
      var prevMonth := if month == 0 then 11 else month - 1;
      var prevYear := if month == 0 then year - 1 else year;
      days := days + [DayCell(day, false, Date(prevYear, prevMonth, day))];
      i := i - 1;
    }
    var day := 1;
    while day <= daysInMonth
      invariant 1 <= day <= daysInMonth + 1
      invariant |days| == firstDay + day - 1
      invariant forall j :: 0 <= j < |days| ==> days[j] == Cell(month, year, j)
    {
      days := days + [DayCell(day, true, Date(year, month, day))];
      day := day + 1;
    }
    var remainingDays := 42 - |days|;
    day := 1;
    while day <= remainingDays
      invariant 1 <= day <= remainingDays + 1
      invariant |days| == firstDay + daysInMonth + day - 1
      invariant forall j :: 0 <= j < |days| ==> days[j] == Cell(month, year, j)
    {
      var nextMonth := if month == 11 then 0 else month + 1;
      var nextYear := if month == 11 then year + 1 else year;
      days := days + [DayCell(day, false, Date(nextYear, nextMonth, day))];
      day := day + 1;
    }
  }

  /** The day number of the grid's first cell: the Sunday on or before the 1st. */
  function GridStart(month: int, year: int): int
    requires 0 <= month < 12
  {
    DayNumber(Date(year, month, 1)) - FirstDayOfMonth(month, year)
  }

  /**
   * The grid is 42 consecutive real days: every cell holds a valid date,
   * cell `i` is `i` days after the grid start, and it falls on weekday `i % 7`
   * (so the columns line up under the D S T Q Q S S header).
   */
  lemma GridIsConsecutiveDays(month: int, year: int, i: int)
    requires 0 <= month < 12 && 0 <= i < GridSize
    ensures ValidDate(Cell(month, year, i).date)
    ensures Cell(month, year, i).day == Cell(month, year, i).date.day
    ensures DayNumber(Cell(month, year, i).date) == GridStart(month, year) + i
    ensures Weekday(Cell(month, year, i).date) == i % 7
  {
    var first := FirstDayOfMonth(month, year);
    var dim := DaysInMonth(month, year);
    var (pm, py) := PrevMonthOf(month, year);
    var (nm, ny) := NextMonthOf(month, year);
    DaysInPreviousMonth(month, year);
    if i < first {
      NextMonthStart(pm, py);
      PrevNextInverse(month, year);
    } else if i >= first + dim {
      NextMonthStart(month, year);
    }
    var base := DayNumber(Date(year, month, 1));
    assert first == (base + 1) % 7;
    WeekdayShift(base, first, i);
  }

  lemma WeekdayShift(base: int, first: int, i: int)
    requires first == (base + 1) % 7
    ensures (base - first + i + 1) % 7 == i % 7
  {
    var q := (base + 1) / 7;
    assert base + 1 == 7 * q + first;
    assert base - first + i + 1 == 7 * q + i;
  }

  /** Exactly the month's own days are marked current, numbered 1 to its length. */
  lemma CurrentMonthCells(month: int, year: int, i: int)
    requires 0 <= month < 12 && 0 <= i < GridSize
    ensures Cell(month, year, i).isCurrentMonth
        <==> Cell(month, year, i).date.year == year && Cell(month, year, i).date.month == month
    ensures Cell(month, year, i).isCurrentMonth ==> Cell(month, year, i).day == i - FirstDayOfMonth(month, year) + 1
  {
  }

  /** Every day of the month has its cell; the grid never runs short. */
  lemma MonthFitsGrid(month: int, year: int, d: int)
    requires 0 <= month < 12 && 1 <= d <= DaysInMonth(month, year)
    ensures 0 <= FirstDayOfMonth(month, year) + d - 1 < GridSize
    ensures Cell(month, year, FirstDayOfMonth(month, year) + d - 1).date == Date(year, month, d)
  {
  }

  /** No date appears twice, so at most one cell is highlighted as today or selected. */
  lemma GridDatesDistinct(month: int, year: int, i: int, j: int)
    requires 0 <= month < 12 && 0 <= i < GridSize && 0 <= j < GridSize
    requires Cell(month, year, i).date == Cell(month, year, j).date
    ensures i == j
  {
    GridIsConsecutiveDays(month, year, i);
    GridIsConsecutiveDays(month, year, j);
  }

  /** February 2024 shows 29 current days starting on a Thursday. */
  lemma LeapFebruaryGrid()
    ensures DaysInMonth(1, 2024) == 29
    ensures FirstDayOfMonth(1, 2024) == 4
  {
  }

  /** The `${year}-${MM}-${DD}` text of a date; the year is printed without padding. */
  function DayIso(d: Date): string
    requires ValidDate(d)
  {
    Text.IntToString(d.year) + "-" + Text.PadStart2(Text.NatToString(d.month + 1)) + "-" + Text.PadStart2(Text.NatToString(d.day))
  }

  /** The text splits on `-` back into the year, the padded month and the padded day. */
  lemma DayIsoSplits(d: Date)
    requires ValidDate(d) && d.year >= 0
    ensures Text.Split(DayIso(d), '-') == [Text.IntToString(d.year), Text.PadStart2(Text.NatToString(d.month + 1)), Text.PadStart2(Text.NatToString(d.day))]
  {
    var y := Text.IntToString(d.year);
    var mm := Text.PadStart2(Text.NatToString(d.month + 1));
    var dd := Text.PadStart2(Text.NatToString(d.day));
    Text.DigitsHaveNoSep(y, '-');
    Text.DigitsHaveNoSep(mm, '-');
    Text.DigitsHaveNoSep(dd, '-');
    Text.SplitThree(y, mm, dd, '-');
  }

  /** For four-digit years the emitted text is exactly the ISO `YYYY-MM-DD` shape. */
  lemma DayIsoShape(d: Date)
    requires ValidDate(d) && 1000 <= d.year <= 9999
    ensures |DayIso(d)| == 10
    ensures DayIso(d)[4] == '-' && DayIso(d)[7] == '-'
    ensures Text.AllDigits(DayIso(d)[..4]) && Text.AllDigits(DayIso(d)[5..7]) && Text.AllDigits(DayIso(d)[8..])
    ensures Text.DigitsValue(DayIso(d)[..4]) == d.year
    ensures Text.DigitsValue(DayIso(d)[5..7]) == d.month + 1
    ensures Text.DigitsValue(DayIso(d)[8..]) == d.day
  {
    var y := Text.NatToString(d.year);
    var mm := Text.PadStart2(Text.NatToString(d.month + 1));
    var dd := Text.PadStart2(Text.NatToString(d.day));
    var s := DayIso(d);
    assert s == y + "-" + mm + "-" + dd;
    assert s[..4] == y && s[5..7] == mm && s[8..] == dd;
    Text.NatToStringValue(d.year);
    Text.PadStartValue(d.month + 1);
    Text.PadStartValue(d.day);
  }

  /** A year below 1000 is not padded, so the text is shorter than ISO's ten characters. */
  lemma DayIsoShortYear()
    ensures DayIso(Date(999, 0, 1)) == "999-01-01"
  {
    assert Text.NatToString(999) == "999";
  }

  /** The panel's `minWidth` in portal mode: never narrower than 280 px. */
  function PanelMinWidth(p: Position): (w: real)
    ensures w >= 280.0 && w >= p.width
    ensures w == p.width || w == 280.0
  {
    MaxReal(p.width, 280.0)
  }

  /** Two dates agree on day, month and year (`isToday`, `isSelected`). */
  predicate SameDay(a: Date, b: Date) {
    a.day == b.day && a.month == b.month && a.year == b.year
  }

  /** The picker's state: the shown month and the selected date. */
  class Picker {
    var currentMonth: int
    var currentYear: int
    var selected: Option<Date>
    /** `new Date()` at render time, supplied by the host. */
    const today: Date

    predicate Valid()
      reads this
    {
      0 <= currentMonth < 12
    }

    /**
     * Mounting with the text of `value`. `parsed` is what `new Date(value +
     * 'T00:00:00')` gives (`None` when invalid). A non-empty value that does
     * not parse still selects today.
     */
    constructor (value: string, parsed: Option<Date>, today: Date)
      requires ValidDate(today) && (parsed.Some? ==> ValidDate(parsed.value))
      ensures Valid() && this.today == today
      ensures var initial := if value != [] && parsed.Some? then parsed.value else today;
              currentMonth == initial.month && currentYear == initial.year
              && selected == (if value != [] then Some(initial) else None)
    {
      var initial := if value != [] && parsed.Some? then parsed.value else today;
      currentMonth := initial.month;
      currentYear := initial.year;
      selected := if value != [] then Some(initial) else None;
      this.today := today;
    }

    /** The previous-month arrow. */
    method PrevMonth()
      requires Valid()
      modifies this
      ensures Valid()
      ensures (currentMonth, currentYear) == PrevMonthOf(old(currentMonth), old(currentYear))
      ensures selected == old(selected)
    {
      if currentMonth == 0 {
        currentMonth := 11;
        currentYear := currentYear - 1;
      } else {
        currentMonth := currentMonth - 1;
      }
    }

    /** The next-month arrow. */
    method NextMonth()
      requires Valid()
      modifies this
      ensures Valid()
      ensures (currentMonth, currentYear) == NextMonthOf(old(currentMonth), old(currentYear))
      ensures selected == old(selected)
    {
      if currentMonth == 11 {
        currentMonth := 0;
        currentYear := currentYear + 1;
      } else {
        currentMonth := currentMonth + 1;
      }
    }

    /** The cells rendered for the shown month. */
    method CalendarDays() returns (days: seq<DayCell>)
      requires Valid()
      ensures |days| == GridSize
      ensures forall i :: 0 <= i < GridSize ==> days[i] == Cell(currentMonth, currentYear, i)
    {
      days := GenerateCalendarDays(currentMonth, currentYear);
    }

    /**
     * A day cell or the "Hoje" button: selects the date and returns the text
     * passed to `onChange`; the panel then asks to be closed.
     */
    method DayClick(d: Date) returns (emitted: string)
      requires ValidDate(d)
      modifies this
      ensures selected == Some(d)
      ensures emitted == DayIso(d)
      ensures currentMonth == old(currentMonth) && currentYear == old(currentYear)
    {
      selected := Some(d);
      emitted := DayIso(d);
    }

    function IsToday(d: Date): (b: bool)
      ensures b <==> d == today
    {
      SameDay(d, today)
    }

    function IsSelected(d: Date): (b: bool)
      reads this
      ensures b <==> selected == Some(d)
    {
      selected.Some? && SameDay(d, selected.value)
    }
  }
}
