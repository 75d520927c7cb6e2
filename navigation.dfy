/**
 * The picker's cursor (`currentDate`) and year window (`currentYearRange`)
 * as values: what the prev/next month buttons (script.js:420-431), the
 * month and year picks (script.js:337-342, 370-375) and the prev/next
 * year-range buttons (script.js:454-468) do to them. The controller in
 * Picker applies these functions to its fields; the lemmas here say what
 * the steps mean, including the day roll-over of `setMonth` and
 * `setFullYear`.
 */
module Navigation {
  import opened Dates

  /** The month counted from year 0: consecutive months differ by one. */
  function MonthOrdinal(d: Date): int {
    d.year * 12 + d.month
  }

  /** The prev-month button: `currentDate.setMonth(currentDate.getMonth() - 1)`. */
  function PrevMonthCursor(c: Date): (r: Date)
    requires IsRealDate(c)
    ensures IsRealDate(r)
  {
    SetMonth(c, GetMonth(c) - 1)
  }

  /** The guard of the next-month button, with `new Date()` read as today. */
  predicate NextMonthAllowed(c: Date, today: Date) {
    GetMonth(c) < GetMonth(today) || c.year < today.year
  }

  /** The next-month button: one `setMonth(getMonth() + 1)` when the guard holds, else nothing. */
  function NextMonthCursor(c: Date, today: Date): (r: Date)
    requires IsRealDate(c)
    ensures IsRealDate(r)
  {
    if NextMonthAllowed(c, today) then SetMonth(c, GetMonth(c) + 1) else c
  }

  /** A click on item `index` of the month selector: `currentDate.setMonth(index)`. */
  function PickMonthCursor(c: Date, index: int): (r: Date)
    requires IsRealDate(c) && 0 <= index < 12
    ensures IsRealDate(r)
  {
    SetMonth(c, index)
  }

  /** A click on year `y` of the year selector: `currentDate.setFullYear(y)`. */
  function PickYearCursor(c: Date, y: int): (r: Date)
    requires IsRealDate(c)
    ensures IsRealDate(r)
  {
    SetFullYear(c, y)
  }

  /** The prev-range button: the anchor moves back twelve years. */
  function PrevYearRange(anchor: int): int {
    anchor - 12
  }

  /** The next-range button: forward twelve years only if the new window's end, anchor + 17, is not past currentYear. */
  function NextYearRange(anchor: int, currentYear: int): int {
    if anchor + 12 + 5 <= currentYear then anchor + 12 else anchor
  }

  /** Year-range clicks from the initial anchor: true for next, false for prev. */
  function AnchorAfter(currentYear: int, clicks: seq<bool>): int
    decreases |clicks|
  {
    if clicks == [] then currentYear
    else
      var a := AnchorAfter(currentYear, clicks[..|clicks| - 1]);
      if clicks[|clicks| - 1] then NextYearRange(a, currentYear) else PrevYearRange(a)
  }

  // ---------------------------------------------------------------------
  // Lemmas
  // ---------------------------------------------------------------------

  /** The month indexes one before and one after month m, folded into a year offset and a month. */
  lemma MonthIndexFold(m: int)
    requires 1 <= m <= 12
    ensures (m - 2) / 12 == (if m == 1 then -1 else 0)
    ensures (m - 2) % 12 + 1 == (if m == 1 then 12 else m - 1)
    ensures m / 12 == (if m == 12 then 1 else 0)
    ensures m % 12 + 1 == (if m == 12 then 1 else m + 1)
  {
  }

  /**
   * Prev-month steps back one month, wrapping the year, when the cursor's
   * day exists there; otherwise the day rolls over and the cursor stays in
   * its month (31 March becomes 3 March, or 2 March in a leap year).
   */
  lemma PrevMonthSteps(c: Date)
    requires IsRealDate(c)
    ensures var p := PrevMonthOf(c.year, c.month);
      PrevMonthCursor(c) ==
        if c.day <= DaysInMonth(p.0, p.1) then Date(p.0, p.1, c.day)
        else Date(c.year, c.month, c.day - DaysInMonth(p.0, p.1))
  {
    var p := PrevMonthOf(c.year, c.month);
    MonthIndexFold(c.month);
    assert SetMonth(c, GetMonth(c) - 1) == Roll(p.0, p.1, c.day);
    if c.day > DaysInMonth(p.0, p.1) {
      RollSpills(p.0, p.1, c.day);
    }
  }

  /** The month ordinal of prev-month falls by one, or stays when the day rolled over. */
  lemma PrevMonthOrdinal(c: Date)
    requires IsRealDate(c)
    ensures var p := PrevMonthOf(c.year, c.month);
      MonthOrdinal(PrevMonthCursor(c)) == if c.day <= DaysInMonth(p.0, p.1) then MonthOrdinal(c) - 1 else MonthOrdinal(c)
  {
    PrevMonthSteps(c);
  }

  /**
   * When its guard holds, next-month moves to the following month, or one
   * further when the day does not exist there (31 October becomes 1 December).
   */
  lemma NextMonthSteps(c: Date, today: Date)
    requires IsRealDate(c)
    ensures !NextMonthAllowed(c, today) ==> NextMonthCursor(c, today) == c
    ensures var n := NextMonthOf(c.year, c.month);
      var nn := NextMonthOf(n.0, n.1);
      NextMonthAllowed(c, today) ==>
        NextMonthCursor(c, today) ==
          if c.day <= DaysInMonth(n.0, n.1) then Date(n.0, n.1, c.day)
          else Date(nn.0, nn.1, c.day - DaysInMonth(n.0, n.1))
  {
    var n := NextMonthOf(c.year, c.month);
    MonthIndexFold(c.month);
    assert SetMonth(c, GetMonth(c) + 1) == Roll(n.0, n.1, c.day);
    if c.day > DaysInMonth(n.0, n.1) {
      RollSpills(n.0, n.1, c.day);
    }
  }

  /** An allowed next-month advances the month ordinal by one or two; a refused one changes nothing. */
  lemma NextMonthOrdinal(c: Date, today: Date)
    requires IsRealDate(c)
    ensures NextMonthAllowed(c, today) ==>
      MonthOrdinal(c) + 1 <= MonthOrdinal(NextMonthCursor(c, today)) <= MonthOrdinal(c) + 2
    ensures !NextMonthAllowed(c, today) ==> NextMonthCursor(c, today) == c
  {
    NextMonthSteps(c, today);
  }

  /**
   * While the cursor's year is not past today's, the guard lets next-month
   * through exactly when the cursor's month is before today's month, and
   * the cursor's year stays not past today's.
   */
  lemma NextMonthGuard(c: Date, today: Date)
    requires IsRealDate(c) && IsRealDate(today) && c.year <= today.year
    ensures NextMonthAllowed(c, today) <==> MonthOrdinal(c) < MonthOrdinal(today)
    ensures NextMonthCursor(c, today).year <= today.year
  {
    NextMonthSteps(c, today);
  }

  /** The guard does not stop the cursor at today's month: 31 October moves to 1 December when today is in November. */
  lemma NextMonthCanPassToday()
    ensures NextMonthCursor(Date(2026, 10, 31), Date(2026, 11, 15)) == Date(2026, 12, 1)
    ensures MonthOrdinal(Date(2026, 12, 1)) > MonthOrdinal(Date(2026, 11, 15))
  {
    NextMonthSteps(Date(2026, 10, 31), Date(2026, 11, 15));
  }

  /** Picking month `index` lands in that month of the same year, or early in the next month when the day does not exist there. */
  lemma PickMonthLands(c: Date, index: int)
    requires IsRealDate(c) && 0 <= index < 12
    ensures var n := NextMonthOf(c.year, index + 1);
      PickMonthCursor(c, index) ==
        if c.day <= DaysInMonth(c.year, index + 1) then Date(c.year, index + 1, c.day)
        else Date(n.0, n.1, c.day - DaysInMonth(c.year, index + 1))
  {
    assert PickMonthCursor(c, index) == Roll(c.year, index + 1, c.day);
    if c.day > DaysInMonth(c.year, index + 1) {
      RollSpills(c.year, index + 1, c.day);
    }
  }

  /** Picking year y keeps month and day, except that 29 February of a non-leap year becomes 1 March. */
  lemma PickYearLands(c: Date, y: int)
    requires IsRealDate(c)
    ensures PickYearCursor(c, y) ==
      if c.month == 2 && c.day == 29 && !IsLeap(y) then Date(y, 3, 1) else Date(y, c.month, c.day)
  {
    if c.day > DaysInMonth(y, c.month) {
      RollSpills(y, c.month, c.day);
    }
  }

  /** Next-range moves exactly when the new window would end no later than currentYear. */
  lemma NextYearRangeMoves(anchor: int, currentYear: int)
    ensures NextYearRange(anchor, currentYear) == anchor + 12 <==> anchor + 17 <= currentYear
    ensures NextYearRange(anchor, currentYear) != anchor + 12 ==> NextYearRange(anchor, currentYear) == anchor
  {
  }

  /** Next-range undoes prev-range exactly when the original window ended no later than currentYear. */
  lemma NextUndoesPrev(anchor: int, currentYear: int)
    ensures NextYearRange(PrevYearRange(anchor), currentYear) == anchor <==> anchor + 5 <= currentYear
  {
  }

  /**
   * Every anchor reachable by year-range clicks is the initial one
   * (currentYear) or lies at least twelve years below it, in steps of
   * twelve: next-range needs anchor + 17 <= currentYear, which rules out
   * anchor = currentYear - 12.
   */
  lemma {:induction false} ReachableAnchors(currentYear: int, clicks: seq<bool>)
    ensures var a := AnchorAfter(currentYear, clicks);
      (currentYear - a) % 12 == 0 && (a == currentYear || a <= currentYear - 12)
    decreases |clicks|
  {
    if clicks != [] {
      ReachableAnchors(currentYear, clicks[..|clicks| - 1]);
    }
  }

  /**
   * Once the window has left the initial anchor it never again lists any of
   * the seven years currentYear - 6 .. currentYear: its last year is at most
   * currentYear - 7.
   */
  lemma RecentYearsLost(currentYear: int, clicks: seq<bool>)
    requires AnchorAfter(currentYear, clicks) != currentYear
    ensures AnchorAfter(currentYear, clicks) + 5 <= currentYear - 7
  {
    ReachableAnchors(currentYear, clicks);
  }

  /** One prev-range click from the initial anchor is enough to lose the recent years. */
  lemma PrevThenNextStuck(currentYear: int)
    ensures AnchorAfter(currentYear, [false, true]) == currentYear - 12
  {
    assert [false, true][..1] == [false];
    assert [false][..0] == [];
  }
}
