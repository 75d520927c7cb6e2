/**
 * What the picker draws: the month grid of `renderCalendar`
 * (script.js:237-312), the month list of `renderMonthSelector`
 * (script.js:323-346) and the year list of `renderYearSelector`
 * (script.js:348-379). Each renderer is a method that builds its output
 * with the script's own loops; the grid is specified cell by cell by
 * `GridCell`, and the lemmas say what the cells mean as calendar days.
 */
module Calendar {
  import opened Wrappers
  import opened Text
  import opened Dates

  const MonthNames: seq<string> := ["January", "February", "March", "April", "May", "June",
    "July", "August", "September", "October", "November", "December"]

  const DayHeaders: seq<string> := ["Sun", "Mon", "Tue", "Wed", "Thu", "Fri", "Sat"]

  /** PrevMonth and NextMonth cells carry the class 'other-month'. */
  datatype CellKind = PrevMonth | ThisMonth | NextMonth

  /** A 'date-cell': the number shown and the classes 'disabled', 'today' and 'selected'. */
  datatype Cell = Cell(kind: CellKind, day: int, disabled: bool, isToday: bool, isSelected: bool)

  /** A child of `calendarGrid`: a 'day-header' or a 'date-cell'. */
  datatype GridChild = Header(text: string) | DateCell(cell: Cell)

  /** The whole output of `renderCalendar`. */
  datatype CalendarView = CalendarView(title: string, nextDisabled: bool, grid: seq<GridChild>)

  /** Only a current-month cell that is not disabled gets the click handler that calls `selectDate`. */
  predicate Clickable(c: Cell) {
    c.kind == ThisMonth && !c.disabled
  }

  /** The first weekday of the displayed month (the host reads years 0..99 as 1900..1999 here). */
  function FirstDay(year: int, month: int): (w: int)
    requires 1 <= month <= 12
    ensures 0 <= w < 7
  {
    Weekday(Date(MakeFullYear(year), month, 1))
  }

  /** The k-th date cell (0..41) of the grid for (year, month), in closed form. */
  function GridCell(year: int, month: int, today: Date, selected: Option<Date>, k: int): Cell
    requires 1 <= month <= 12
  {
    var gy := MakeFullYear(year);
    var first := FirstDay(year, month);
    var dim := DaysInMonth(gy, month);
    if k < first then
      var p := PrevMonthOf(gy, month);
      Cell(PrevMonth, DaysInMonth(p.0, p.1) - first + 1 + k, false, false, false)
    else if k < first + dim then
      var d := Date(gy, month, k - first + 1);
      Cell(ThisMonth, k - first + 1, After(d, today), d == today, selected == Some(d))
    else
      Cell(NextMonth, k - first - dim + 1, false, false, false)
  }

  /** The calendar date a cell of the grid for (year, month) stands for. */
  function CellDate(year: int, month: int, c: Cell): Date
    requires 1 <= month <= 12
  {
    var gy := MakeFullYear(year);
    match c.kind
    case PrevMonth => var p := PrevMonthOf(gy, month); Date(p.0, p.1, c.day)
    case ThisMonth => Date(gy, month, c.day)
    case NextMonth => var n := NextMonthOf(gy, month); Date(n.0, n.1, c.day)
  }

  /**
   * What `renderCalendar` leaves on screen for the cursor's (year, month)
   * with `new Date()` read as today: the title "Month year", the
   * next-month button disabled exactly at today's month, seven weekday
   * headers and then the 42 date cells of GridCell.
   */
  predicate ShowsMonth(view: CalendarView, year: int, month: int, today: Date, selected: Option<Date>)
    requires 1 <= month <= 12
  {
    && view.title == MonthNames[month - 1] + " " + IntToString(year)
    && (view.nextDisabled <==> year == today.year && month == today.month)
    && |view.grid| == 7 + 42
    && (forall i :: 0 <= i < 7 ==> view.grid[i] == Header(DayHeaders[i]))
    && (forall k :: 0 <= k < 42 ==> view.grid[7 + k] == DateCell(GridCell(year, month, today, selected, k)))
  }

  /**
   * `renderCalendar` for the cursor's (year, month), `new Date()` read as
   * today: the title, the state of the next-month button, seven headers
   * and then 42 date cells (trailing days of the previous month, the days
   * of this month, leading days of the next month).
   */
  method RenderCalendar(year: int, month: int, today: Date, selected: Option<Date>) returns (view: CalendarView)
    requires 1 <= month <= 12
    ensures ShowsMonth(view, year, month, today, selected)
  {
    var title := MonthNames[month - 1] + " " + IntToString(year);
    var isCurrentMonth := year == today.year && month == today.month;
    var headers: seq<GridChild> := [];
    for i := 0 to 7
      invariant |headers| == i
      invariant forall j :: 0 <= j < i ==> headers[j] == Header(DayHeaders[j])
    {
      headers := headers + [Header(DayHeaders[i])];
    }
    var cells := DateCells(year, month, today, selected);
    view := CalendarView(title, isCurrentMonth, headers + cells);
  }

  /**
   * The date cells `renderCalendar` appends after the headers: the
   * trailing days of the previous month, the days of this month and the
   * leading days of the next month, 42 in all.
   */
  method DateCells(year: int, month: int, today: Date, selected: Option<Date>) returns (cells: seq<GridChild>)
    requires 1 <= month <= 12
    ensures |cells| == 42
    ensures forall k :: 0 <= k < 42 ==> cells[k] == DateCell(GridCell(year, month, today, selected, k))
  {
    var gy := MakeFullYear(year);
    var firstDay := Weekday(Date(gy, month, 1));
    var daysInMonth := DaysInMonth(gy, month);
    var p := PrevMonthOf(gy, month);
    var daysInPrevMonth := DaysInMonth(p.0, p.1);
    cells := [];
    var i := firstDay - 1;
    while i >= 0
      invariant -1 <= i < firstDay
      invariant |cells| == firstDay - 1 - i
      invariant forall k :: 0 <= k < |cells| ==> cells[k] == DateCell(GridCell(year, month, today, selected, k))
    {
      assert GridCell(year, month, today, selected, |cells|) == Cell(PrevMonth, daysInPrevMonth - i, false, false, false);
      cells := cells + [DateCell(Cell(PrevMonth, daysInPrevMonth - i, false, false, false))];
      i := i - 1;
    }
    var day := 1;
    while day <= daysInMonth
      invariant 1 <= day <= daysInMonth + 1
      invariant |cells| == firstDay + day - 1
      invariant forall k :: 0 <= k < |cells| ==> cells[k] == DateCell(GridCell(year, month, today, selected, k))
    {
      var cellDate := Date(gy, month, day);
      var cell := Cell(ThisMonth, day, After(cellDate, today), cellDate == today, selected == Some(cellDate));
      assert GridCell(year, month, today, selected, |cells|) == cell;
      cells := cells + [DateCell(cell)];
      day := day + 1;
    }
    var totalCells := |cells|;
    var remainingCells := 42 - totalCells;
    day := 1;
    while day <= remainingCells
      invariant 1 <= day <= remainingCells + 1
      invariant |cells| == totalCells + day - 1
      invariant forall k :: 0 <= k < |cells| ==> cells[k] == DateCell(GridCell(year, month, today, selected, k))
    {
      assert GridCell(year, month, today, selected, |cells|) == Cell(NextMonth, day, false, false, false);
      cells := cells + [DateCell(Cell(NextMonth, day, false, false, false))];
      day := day + 1;
    }
  }

  /** A 'selector-item': its text and whether it carries the class 'selected'. */
  datatype SelectorItem = SelectorItem(text: string, selected: bool)

  /** The month list: the twelve month names in order, only the cursor's month marked. */
  predicate ShowsMonths(items: seq<SelectorItem>, cursor: Date) {
    && |items| == 12
    && (forall i :: 0 <= i < 12 ==> items[i].text == MonthNames[i])
    && (forall i :: 0 <= i < 12 ==> (items[i].selected <==> i == GetMonth(cursor)))
  }

  /** `renderMonthSelector`: the twelve month names, the cursor's month marked. */
  method RenderMonthSelector(cursor: Date) returns (items: seq<SelectorItem>)
    ensures ShowsMonths(items, cursor)
  {
    items := [];
    for index := 0 to 12
      invariant |items| == index
      invariant forall i :: 0 <= i < index ==> items[i] == SelectorItem(MonthNames[i], i == GetMonth(cursor))
    {
      items := items + [SelectorItem(MonthNames[index], index == GetMonth(cursor))];
    }
  }

  /** The last year the year selector lists: anchor + 5, but never past the current year. */
  function YearWindowEnd(anchor: int, currentYear: int): (e: int)
    ensures e <= currentYear && e <= anchor + 5
    ensures e == currentYear || e == anchor + 5
  {
    if anchor + 5 > currentYear then currentYear else anchor + 5
  }

  /** A year of the year selector: the year and whether it is the cursor's. */
  datatype YearItem = YearItem(year: int, selected: bool)

  /**
   * The year list for anchor `currentYearRange`: the label "start - end"
   * and the years anchor - 6 up to YearWindowEnd in increasing order (none
   * when currentYear is below anchor - 6), only the cursor's year marked.
   */
  predicate ShowsYears(rangeLabel: string, items: seq<YearItem>, anchor: int, currentYear: int, cursorYear: int) {
    && rangeLabel == IntToString(anchor - 6) + " - " + IntToString(YearWindowEnd(anchor, currentYear))
    && |items| == (if YearWindowEnd(anchor, currentYear) < anchor - 6 then 0
                   else YearWindowEnd(anchor, currentYear) - (anchor - 6) + 1)
    && (forall k :: 0 <= k < |items| ==> items[k].year == anchor - 6 + k)
    && (forall k :: 0 <= k < |items| ==> (items[k].selected <==> items[k].year == cursorYear))
  }

  /**
   * `renderYearSelector` with `new Date().getFullYear()` read as
   * currentYear: the label "start - end" and the years anchor - 6 up to
   * YearWindowEnd in increasing order, the cursor's year marked.
   */
  method RenderYearSelector(anchor: int, currentYear: int, cursorYear: int) returns (rangeLabel: string, items: seq<YearItem>)
    ensures ShowsYears(rangeLabel, items, anchor, currentYear, cursorYear)
    ensures |items| <= 12
    ensures forall k :: 0 <= k < |items| ==> items[k].year <= currentYear
  {
    var startYear := anchor - 6;
    var endYear := anchor + 5;
    if endYear > currentYear {
      endYear := currentYear;
    }
    rangeLabel := IntToString(startYear) + " - " + IntToString(endYear);
    items := [];
    var year := startYear;
    while year <= endYear
      invariant year == startYear || startYear < year <= endYear + 1
      invariant |items| == year - startYear
      invariant forall k :: 0 <= k < |items| ==> items[k] == YearItem(startYear + k, startYear + k == cursorYear)
    {
      items := items + [YearItem(year, year == cursorYear)];
      year := year + 1;
    }
  }

  // ---------------------------------------------------------------------
  // Lemmas about the grid
  // ---------------------------------------------------------------------

  lemma NextOfPrev(y: int, m: int)
    requires 1 <= m <= 12
    ensures var p := PrevMonthOf(y, m); NextMonthOf(p.0, p.1) == (y, m)
  {
  }

  /**
   * Cell k stands for a real date: the day `k - FirstDay` days after the
   * first of the displayed month (so cell 0 is the Sunday on or before it).
   */
  lemma GridCellDay(year: int, month: int, today: Date, selected: Option<Date>, k: int)
    requires 1 <= month <= 12 && 0 <= k < 42
    ensures var d := CellDate(year, month, GridCell(year, month, today, selected, k));
      && IsRealDate(d)
      && DayNumber(d) == DayNumber(Date(MakeFullYear(year), month, 1)) - FirstDay(year, month) + k
  {
    var gy := MakeFullYear(year);
    var first := FirstDay(year, month);
    var dim := DaysInMonth(gy, month);
    if k < first {
      PrevMonthCellDay(gy, month, first, k);
    } else if k >= first + dim {
      NextMonthCellDay(gy, month, first, k);
    }
  }

  /** A trailing day of the previous month: DaysInMonth(prev) - first + 1 + k is `first - k` days before the first. */
  lemma PrevMonthCellDay(gy: int, month: int, first: int, k: int)
    requires 1 <= month <= 12 && 0 <= k < first < 7
    ensures var p := PrevMonthOf(gy, month);
      var d := Date(p.0, p.1, DaysInMonth(p.0, p.1) - first + 1 + k);
      IsRealDate(d) && DayNumber(d) == DayNumber(Date(gy, month, 1)) - first + k
  {
    var p := PrevMonthOf(gy, month);
    NextOfPrev(gy, month);
    NextMonthFirstDay(p.0, p.1);
  }

  /** A leading day of the next month: k - first - dim + 1 is `k - first` days after the first. */
  lemma NextMonthCellDay(gy: int, month: int, first: int, k: int)
    requires 1 <= month <= 12 && 0 <= first < 7 && first + DaysInMonth(gy, month) <= k < 42
    ensures var n := NextMonthOf(gy, month);
      var d := Date(n.0, n.1, k - first - DaysInMonth(gy, month) + 1);
      IsRealDate(d) && DayNumber(d) == DayNumber(Date(gy, month, 1)) - first + k
  {
    NextMonthFirstDay(gy, month);
    var n := NextMonthOf(gy, month);
    assert DaysInMonth(n.0, n.1) >= 28;
  }

  /** Neighbouring cells are neighbouring days, across both month boundaries. */
  lemma GridCellsConsecutive(year: int, month: int, today: Date, selected: Option<Date>, k: int)
    requires 1 <= month <= 12 && 0 <= k < 41
    ensures DayNumber(CellDate(year, month, GridCell(year, month, today, selected, k + 1)))
         == DayNumber(CellDate(year, month, GridCell(year, month, today, selected, k))) + 1
  {
    GridCellDay(year, month, today, selected, k);
    GridCellDay(year, month, today, selected, k + 1);
  }

  /** Every cell sits under the header of its own weekday. */
  lemma GridColumnIsWeekday(year: int, month: int, today: Date, selected: Option<Date>, k: int)
    requires 1 <= month <= 12 && 0 <= k < 42
    ensures Weekday(CellDate(year, month, GridCell(year, month, today, selected, k))) == k % 7
  {
    GridCellDay(year, month, today, selected, k);
    WeekdayShift(DayNumber(Date(MakeFullYear(year), month, 1)), k);
  }

  /** Counting k days from the Sunday before day n1 lands on weekday k % 7. */
  lemma WeekdayShift(n1: int, k: int)
    ensures (n1 - (n1 + 4) % 7 + k + 4) % 7 == k % 7
  {
    var q := (n1 + 4) / 7;
    assert n1 - (n1 + 4) % 7 + k + 4 == 7 * q + k;
  }

  /** The index of the cell that shows day `day` of the displayed month. */
  function DayCellIndex(year: int, month: int, day: int): int
    requires 1 <= month <= 12
  {
    FirstDay(year, month) + day - 1
  }

  /**
   * The current-month cells are exactly cells FirstDay .. FirstDay + DaysInMonth - 1,
   * showing days 1 .. DaysInMonth in order: every day of the month appears once.
   */
  lemma GridCoversMonthOnce(year: int, month: int, today: Date, selected: Option<Date>)
    requires 1 <= month <= 12
    ensures forall k :: 0 <= k < 42 ==>
      (GridCell(year, month, today, selected, k).kind == ThisMonth <==>
        FirstDay(year, month) <= k < FirstDay(year, month) + DaysInMonth(MakeFullYear(year), month))
    ensures forall k :: 0 <= k < 42 && GridCell(year, month, today, selected, k).kind == ThisMonth ==>
      1 <= GridCell(year, month, today, selected, k).day <= DaysInMonth(MakeFullYear(year), month)
    ensures forall day :: 1 <= day <= DaysInMonth(MakeFullYear(year), month) ==>
      var k := DayCellIndex(year, month, day);
      0 <= k < 42 && GridCell(year, month, today, selected, k).kind == ThisMonth
        && GridCell(year, month, today, selected, k).day == day
    ensures forall k1, k2 ::
      0 <= k1 < 42 && 0 <= k2 < 42 &&
      GridCell(year, month, today, selected, k1).kind == ThisMonth &&
      GridCell(year, month, today, selected, k2).kind == ThisMonth &&
      GridCell(year, month, today, selected, k1).day == GridCell(year, month, today, selected, k2).day
      ==> k1 == k2
  {
  }

  /** The 'today' class marks at most one cell, and only when the grid shows today's month. */
  lemma TodayMarkedOnce(year: int, month: int, today: Date, selected: Option<Date>)
    requires 1 <= month <= 12
    ensures forall k :: 0 <= k < 42 && GridCell(year, month, today, selected, k).isToday ==>
      MakeFullYear(year) == today.year && month == today.month
      && k == FirstDay(year, month) + today.day - 1
      && CellDate(year, month, GridCell(year, month, today, selected, k)) == today
    ensures IsRealDate(today) && MakeFullYear(year) == today.year && month == today.month ==>
      GridCell(year, month, today, selected, FirstDay(year, month) + today.day - 1).isToday
  {
  }

  /** The 'selected' class marks exactly the selected date's cell, if the grid shows it. */
  lemma SelectedMarkedOnce(year: int, month: int, today: Date, selected: Option<Date>)
    requires 1 <= month <= 12
    ensures forall k :: 0 <= k < 42 && GridCell(year, month, today, selected, k).isSelected ==>
      selected == Some(CellDate(year, month, GridCell(year, month, today, selected, k)))
      && k == FirstDay(year, month) + selected.value.day - 1
  {
  }

  /** A cell can be clicked exactly when it is a day of the displayed month that is not after today. */
  lemma ClickableIffNotFuture(year: int, month: int, today: Date, selected: Option<Date>, k: int)
    requires 1 <= month <= 12 && 0 <= k < 42
    ensures var c := GridCell(year, month, today, selected, k);
      Clickable(c) <==> c.kind == ThisMonth && !After(CellDate(year, month, c), today)
  {
  }
}
