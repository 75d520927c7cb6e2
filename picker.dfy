/**
 * The date-of-birth picker as one object: the script's module state
 * `currentDate`, `selectedDate` and `currentYearRange` (script.js:29-31),
 * the visibility of the calendar, month and year panels (the class
 * 'active' of `customDatePicker`, the `style.display` of the two
 * selectors) and the text of `dobDisplay`. Each handler is a method that
 * updates those fields and returns what it renders.
 */
module Picker {
  import opened Wrappers
  import opened Text
  import opened Dates
  import opened DateText
  import opened Calendar
  import opened Navigation

  /** Which of the three panels is showing. */
  datatype Panels = Panels(calendar: bool, month: bool, year: bool)

  /** The handlers that change panel visibility. */
  datatype PanelEvent =
    | DisplayClick   // a click on dobDisplay
    | MonthButton    // monthBtn
    | YearButton     // yearBtn
    | CloseMonth     // closeMonthSelector
    | MonthPicked    // an item of the month selector
    | YearPicked     // an item of the year selector
    | DateSelected   // a clickable date cell, through selectDate
    | OutsideClick   // a click outside '.date-picker-wrapper'

  /**
   * The panels after one event: script.js:317, 339-340, 372-373, 413-418,
   * 433-447, 471-477. A date-cell click (DateSelected) hides the calendar
   * in `selectDate` and then re-renders it, and `renderCalendar` empties
   * the grid (script.js:238), which detaches the clicked cell; the click
   * still bubbles to the document listener (script.js:471-477), where
   * `closest` finds no wrapper, so that listener hides the month and year
   * panels too. The step keeps p.month and p.year instead: the two agree
   * whenever the event is Enabled and AtMostOne holds, because then the
   * calendar was showing and neither selector was.
   */
  function Step(p: Panels, e: PanelEvent): Panels {
    match e
    case DisplayClick => Panels(!p.calendar, false, false)
    case MonthButton => Panels(false, true, false)
    case YearButton => Panels(false, false, true)
    case CloseMonth => Panels(true, false, p.year)
    case MonthPicked => Panels(true, false, p.year)
    case YearPicked => Panels(true, p.month, false)
    case DateSelected => Panels(false, p.month, p.year)
    case OutsideClick => Panels(false, false, false)
  }

  /** No two panels show at once. */
  predicate AtMostOne(p: Panels) {
    !(p.calendar && p.month) && !(p.calendar && p.year) && !(p.month && p.year)
  }

  /**
   * The control behind event e is on screen: the month and year buttons
   * and the date cells sit in the calendar panel, the month items and its
   * close button in the month panel, the year items in the year panel; the
   * display field and the rest of the page are always there.
   */
  predicate Enabled(p: Panels, e: PanelEvent) {
    match e
    case DisplayClick => true
    case OutsideClick => true
    case MonthButton => p.calendar
    case YearButton => p.calendar
    case DateSelected => p.calendar
    case CloseMonth => p.month
    case MonthPicked => p.month
    case YearPicked => p.year
  }

  /** The panels after a sequence of events. */
  function Run(p: Panels, events: seq<PanelEvent>): Panels
    decreases |events|
  {
    if events == [] then p else Run(Step(p, events[0]), events[1..])
  }

  /** Every event of the sequence is on screen when it happens. */
  predicate EnabledRun(p: Panels, events: seq<PanelEvent>)
    decreases |events|
  {
    events == [] || (Enabled(p, events[0]) && EnabledRun(Step(p, events[0]), events[1..]))
  }

  class DatePicker {
    /** `currentDate`: the month the calendar shows, with the day of month it keeps. */
    var cursor: Date
    /** `selectedDate`. */
    var selected: Option<Date>
    /** `currentYearRange`: the anchor of the year selector's window. */
    var yearAnchor: int
    /** `customDatePicker` has the class 'active'. */
    var calendarActive: bool
    /** `monthSelector.style.display` is 'block'. */
    var monthShown: bool
    /** `yearSelector.style.display` is 'block'. */
    var yearShown: bool
    /** `dobDisplay.value`. */
    var display: string

    /** Cursor and selected date are real calendar dates. */
    predicate Valid()
      reads this
    {
      IsRealDate(cursor) && (selected.Some? ==> IsRealDate(selected.value))
    }

    function PanelState(): Panels
      reads this
    {
      Panels(calendarActive, monthShown, yearShown)
    }

    /** Page load, with `new Date()` read as today: the cursor and anchor on today, nothing selected, every panel hidden. */
    constructor (today: Date)
      requires IsRealDate(today)
      ensures Valid()
      ensures cursor == today && selected == None && yearAnchor == today.year
      ensures PanelState() == Panels(false, false, false) && display == ""
    {
      cursor := today;
      selected := None;
      yearAnchor := today.year;
      calendarActive := false;
      monthShown := false;
      yearShown := false;
      display := "";
    }

    /** `initializeDatePicker`: the first render of the calendar and of both selectors. */
    method Initialize(today: Date, currentYear: int)
      returns (view: CalendarView, months: seq<SelectorItem>, rangeLabel: string, years: seq<YearItem>)
      requires Valid()
      ensures ShowsMonth(view, cursor.year, cursor.month, today, selected)
      ensures ShowsMonths(months, cursor)
      ensures ShowsYears(rangeLabel, years, yearAnchor, currentYear, cursor.year)
    {
      view := RenderCalendar(cursor.year, cursor.month, today, selected);
      months := RenderMonthSelector(cursor);
      rangeLabel, years := RenderYearSelector(yearAnchor, currentYear, cursor.year);
    }

    /** A click on the display field toggles the calendar and hides both selectors. */
    method ClickDisplay()
      requires Valid()
      modifies this
      ensures Valid()
      ensures PanelState() == Step(old(PanelState()), DisplayClick)
      ensures cursor == old(cursor) && selected == old(selected) && yearAnchor == old(yearAnchor) && display == old(display)
    {
      calendarActive := !calendarActive;
      monthShown := false;
      yearShown := false;
    }

    /** The prev-month button: the cursor steps back one month, then the calendar is drawn again. */
    method PrevMonth(today: Date) returns (view: CalendarView)
      requires Valid()
      modifies this
      ensures Valid()
      ensures cursor == PrevMonthCursor(old(cursor))
      ensures ShowsMonth(view, cursor.year, cursor.month, today, selected)
      ensures selected == old(selected) && yearAnchor == old(yearAnchor) && display == old(display)
      ensures PanelState() == old(PanelState())
    {
      cursor := SetMonth(cursor, GetMonth(cursor) - 1);
      view := RenderCalendar(cursor.year, cursor.month, today, selected);
    }

    /** The next-month button: moves and redraws only when the guard lets it. */
    method NextMonth(today: Date) returns (view: Option<CalendarView>)
      requires Valid()
      modifies this
      ensures Valid()
      ensures cursor == NextMonthCursor(old(cursor), today)
      ensures view.Some? <==> NextMonthAllowed(old(cursor), today)
      ensures view.Some? ==> ShowsMonth(view.value, cursor.year, cursor.month, today, selected)
      ensures selected == old(selected) && yearAnchor == old(yearAnchor) && display == old(display)
      ensures PanelState() == old(PanelState())
    {
      if GetMonth(cursor) < GetMonth(today) || cursor.year < today.year {
        cursor := SetMonth(cursor, GetMonth(cursor) + 1);
        var v := RenderCalendar(cursor.year, cursor.month, today, selected);
        view := Some(v);
      } else {
        view := None;
      }
    }

    /** monthBtn: hides the calendar and the year list, shows the month list. */
    method ClickMonthButton() returns (items: seq<SelectorItem>)
      requires Valid()
      modifies this
      ensures Valid()
      ensures PanelState() == Step(old(PanelState()), MonthButton)
      ensures ShowsMonths(items, cursor)
      ensures cursor == old(cursor) && selected == old(selected) && yearAnchor == old(yearAnchor) && display == old(display)
    {
      calendarActive := false;
      monthShown := true;
      yearShown := false;
      items := RenderMonthSelector(cursor);
    }

    /** yearBtn: hides the calendar and the month list, shows the year list. */
    method ClickYearButton(currentYear: int) returns (rangeLabel: string, items: seq<YearItem>)
      requires Valid()
      modifies this
      ensures Valid()
      ensures PanelState() == Step(old(PanelState()), YearButton)
      ensures ShowsYears(rangeLabel, items, yearAnchor, currentYear, cursor.year)
      ensures cursor == old(cursor) && selected == old(selected) && yearAnchor == old(yearAnchor) && display == old(display)
    {
      calendarActive := false;
      yearShown := true;
      monthShown := false;
      rangeLabel, items := RenderYearSelector(yearAnchor, currentYear, cursor.year);
    }

    /** closeMonthSelector: back from the month list to the calendar. */
    method CloseMonthSelector()
      requires Valid()
      modifies this
      ensures Valid()
      ensures PanelState() == Step(old(PanelState()), CloseMonth)
      ensures cursor == old(cursor) && selected == old(selected) && yearAnchor == old(yearAnchor) && display == old(display)
    {
      monthShown := false;
      calendarActive := true;
    }

    /** A click on month `index` of the month list: the cursor moves there and the calendar returns. */
    method PickMonth(index: int, today: Date) returns (view: CalendarView)
      requires Valid() && 0 <= index < 12
      modifies this
      ensures Valid()
      ensures cursor == PickMonthCursor(old(cursor), index)
      ensures PanelState() == Step(old(PanelState()), MonthPicked)
      ensures ShowsMonth(view, cursor.year, cursor.month, today, selected)
      ensures selected == old(selected) && yearAnchor == old(yearAnchor) && display == old(display)
    {
      cursor := SetMonth(cursor, index);
      monthShown := false;
      calendarActive := true;
      view := RenderCalendar(cursor.year, cursor.month, today, selected);
    }

    /** A click on year `year` of the year list: the cursor moves there and the calendar returns. */
    method PickYear(year: int, today: Date) returns (view: CalendarView)
      requires Valid()
      modifies this
      ensures Valid()
      ensures cursor == PickYearCursor(old(cursor), year)
      ensures PanelState() == Step(old(PanelState()), YearPicked)
      ensures ShowsMonth(view, cursor.year, cursor.month, today, selected)
      ensures selected == old(selected) && yearAnchor == old(yearAnchor) && display == old(display)
    {
      cursor := SetFullYear(cursor, year);
      yearShown := false;
      calendarActive := true;
      view := RenderCalendar(cursor.year, cursor.month, today, selected);
    }

    /** prevYearRange: the window moves back twelve years and the year list is drawn again. */
    method PrevYearRange(currentYear: int) returns (rangeLabel: string, items: seq<YearItem>)
      requires Valid()
      modifies this
      ensures Valid()
      ensures yearAnchor == Navigation.PrevYearRange(old(yearAnchor))
      ensures ShowsYears(rangeLabel, items, yearAnchor, currentYear, cursor.year)
      ensures cursor == old(cursor) && selected == old(selected) && display == old(display)
      ensures PanelState() == old(PanelState())
    {
      yearAnchor := yearAnchor - 12;
      rangeLabel, items := RenderYearSelector(yearAnchor, currentYear, cursor.year);
    }

    /** nextYearRange: moves and redraws only when the new window would not end after currentYear. */
    method NextYearRange(currentYear: int) returns (view: Option<(string, seq<YearItem>)>)
      requires Valid()
      modifies this
      ensures Valid()
      ensures yearAnchor == Navigation.NextYearRange(old(yearAnchor), currentYear)
      ensures view.Some? <==> old(yearAnchor) + 17 <= currentYear
      ensures view.Some? ==> ShowsYears(view.value.0, view.value.1, yearAnchor, currentYear, cursor.year)
      ensures cursor == old(cursor) && selected == old(selected) && display == old(display)
      ensures PanelState() == old(PanelState())
    {
      var potentialEndYear := yearAnchor + 12 + 5;
      if potentialEndYear <= currentYear {
        yearAnchor := yearAnchor + 12;
        var rangeLabel, items := RenderYearSelector(yearAnchor, currentYear, cursor.year);
        view := Some((rangeLabel, items));
      } else {
        view := None;
      }
    }

    /** A click anywhere outside the picker hides all three panels. */
    method ClickOutside()
      requires Valid()
      modifies this
      ensures Valid()
      ensures PanelState() == Step(old(PanelState()), OutsideClick)
      ensures cursor == old(cursor) && selected == old(selected) && yearAnchor == old(yearAnchor) && display == old(display)
    {
      calendarActive := false;
      monthShown := false;
      yearShown := false;
    }

    /**
     * `selectDate(d)` for the date of a clickable cell: d becomes the
     * selection, the display shows it as DD/MM/YYYY, the calendar closes
     * and is drawn again with the new selection.
     */
    method SelectDate(d: Date, today: Date) returns (view: CalendarView)
      requires Valid() && IsRealDate(d)
      modifies this
      ensures Valid()
      ensures selected == Some(d) && display == FormatDate(d)
      ensures PanelState() == Step(old(PanelState()), DateSelected)
      ensures ShowsMonth(view, cursor.year, cursor.month, today, selected)
      ensures cursor == old(cursor) && yearAnchor == old(yearAnchor)
    {
      selected := Some(d);
      display := FormatDate(d);
      calendarActive := false;
      view := RenderCalendar(cursor.year, cursor.month, today, selected);
    }

    /**
     * The success branch of the manual-entry handler: the parsed date
     * becomes both the selection and the cursor, the field is rewritten as
     * DD/MM/YYYY and the calendar is drawn again.
     */
    method AcceptEntry(d: Date, today: Date) returns (view: CalendarView)
      requires IsRealDate(d)
      modifies this
      ensures Valid()
      ensures selected == Some(d) && cursor == d && display == FormatDate(d)
      ensures ShowsMonth(view, d.year, d.month, today, selected)
      ensures yearAnchor == old(yearAnchor) && PanelState() == old(PanelState())
    {
      selected := Some(d);
      cursor := d;
      display := FormatDate(d);
      view := RenderCalendar(cursor.year, cursor.month, today, selected);
    }

    /**
     * The `input` handler of the display field, called with its new text.
     * Blank text clears the selection; text that parses selects that date,
     * moves the cursor to it, rewrites the field as DD/MM/YYYY and redraws
     * the calendar; any other text changes nothing but the field itself.
     */
    method EditDisplay(text: string, today: Date) returns (view: Option<CalendarView>)
      requires Valid()
      modifies this
      ensures Valid()
      ensures Trim(text) == [] ==>
        selected == None && cursor == old(cursor) && display == text && view == None
      ensures Trim(text) != [] && ParseDateInput(text, today).Some? ==>
        && selected == ParseDateInput(text, today)
        && cursor == ParseDateInput(text, today).value
        && display == FormatDate(cursor)
        && view.Some? && ShowsMonth(view.value, cursor.year, cursor.month, today, selected)
      ensures Trim(text) != [] && ParseDateInput(text, today) == None ==>
        selected == old(selected) && cursor == old(cursor) && display == text && view == None
      ensures yearAnchor == old(yearAnchor) && PanelState() == old(PanelState())
    {
      var inputValue := Trim(text);
      if inputValue == "" {
        display := text;
        selected := None;
        view := None;
      } else {
        var parsedDate := ParseTrimmedInput(inputValue, text, today);
        if parsedDate.Some? {
          var v := AcceptEntry(parsedDate.value, today);
          view := Some(v);
        } else {
          display := text;
          view := None;
        }
      }
    }
  }

  /**
   * `parseDateInput(inputValue)` in the input handler, where `inputValue` is
   * the field's text already trimmed: the parser trims again, so the result
   * is that of parsing the field's text itself. The fact is ParseOfTrimmed;
   * this method only applies it at the handler's call, so that
   * EditDisplay's proof sees the call's contract and not the parser's
   * body on doubly trimmed text.
   */
  method ParseTrimmedInput(inputValue: string, text: string, today: Date) returns (r: Option<Date>)
    requires inputValue == Trim(text)
    ensures r == ParseDateInput(text, today)
  {
    ParseOfTrimmed(text, today);
    r := ParseDateInput(inputValue, today);
  }

  // ---------------------------------------------------------------------
  // Lemmas about the panels
  // ---------------------------------------------------------------------

  /**
   * A date-cell click hides every panel: with the calendar showing and at
   * most one panel up, keeping p.month and p.year is the same as the
   * document listener's hiding of both selectors.
   */
  lemma DateSelectedHidesAll(p: Panels)
    requires AtMostOne(p) && Enabled(p, DateSelected)
    ensures Step(p, DateSelected) == Panels(false, false, false)
  {
  }

  /** An event whose control is on screen keeps at most one panel showing. */
  lemma StepKeepsAtMostOne(p: Panels, e: PanelEvent)
    requires AtMostOne(p) && Enabled(p, e)
    ensures AtMostOne(Step(p, e))
  {
  }

  /**
   * From the page-load state, any sequence of clicks on controls that are
   * on screen leaves at most one panel showing.
   */
  lemma {:induction false} RunKeepsAtMostOne(p: Panels, events: seq<PanelEvent>)
    requires AtMostOne(p) && EnabledRun(p, events)
    ensures AtMostOne(Run(p, events))
    decreases |events|
  {
    if events != [] {
      StepKeepsAtMostOne(p, events[0]);
      RunKeepsAtMostOne(Step(p, events[0]), events[1..]);
    }
  }

  /** The selector buttons show exactly their own panel; the display click shows at most the calendar. */
  lemma ButtonsShowOnePanel(p: Panels)
    ensures Step(p, MonthButton) == Panels(false, true, false)
    ensures Step(p, YearButton) == Panels(false, false, true)
    ensures !Step(p, DisplayClick).month && !Step(p, DisplayClick).year
    ensures Step(p, DisplayClick).calendar <==> !p.calendar
    ensures Step(Step(p, DisplayClick), DisplayClick).calendar == p.calendar
  {
  }

  /** A click outside hides every panel, and a second one changes nothing. */
  lemma OutsideClickIdempotent(p: Panels)
    ensures Step(p, OutsideClick) == Panels(false, false, false)
    ensures Step(Step(p, OutsideClick), OutsideClick) == Step(p, OutsideClick)
  {
  }

  /**
   * Exclusivity rests on hidden controls not being clickable: the close
   * button of the month list leaves a showing year list alone.
   */
  lemma CloseMonthKeepsYearList()
    ensures !AtMostOne(Step(Panels(false, false, true), CloseMonth))
    ensures !Enabled(Panels(false, false, true), CloseMonth)
  {
  }

  // ---------------------------------------------------------------------
  // Lemmas about the values the picker stores
  // ---------------------------------------------------------------------

  /**
   * A date cell that can be clicked hands `selectDate` a real date that is
   * not after today, so the selection made through the calendar is never a
   * future date.
   */
  lemma ClickedDateNotFuture(year: int, month: int, today: Date, selected: Option<Date>, k: int)
    requires 1 <= month <= 12 && 0 <= k < 42
    requires Clickable(GridCell(year, month, today, selected, k))
    ensures IsRealDate(CellDate(year, month, GridCell(year, month, today, selected, k)))
    ensures !After(CellDate(year, month, GridCell(year, month, today, selected, k)), today)
  {
    GridCellDay(year, month, today, selected, k);
    ClickableIffNotFuture(year, month, today, selected, k);
  }

  /**
   * The text `selectDate` writes into the display reads back as the same
   * date through the manual-entry parser exactly when the year has four
   * digits.
   */
  lemma DisplayTextReparses(d: Date, today: Date)
    requires IsRealDate(d) && !After(d, today)
    ensures ParseDateInput(FormatDate(d), today) == Some(d) <==> 1000 <= d.year <= 9999
    ensures Trim(FormatDate(d)) != []
  {
    FormatThenParse(d, today);
    FormatDateShape(d);
  }
}
