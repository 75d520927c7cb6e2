# Registration form: date-of-birth picker and field validators, in Dafny

This project models the logic of `script.js`, the script behind a
registration form. The form has a custom date-of-birth picker and six
validated fields. The model covers:

- **Dates** (`dates.dfy`, module `Dates`): the calendar arithmetic the
  script borrows from the host `Date` object. This covers leap years, month
  lengths, day numbers counted from 1 January 1970 and weekdays. It also
  covers how `setMonth`, `setFullYear` and `new Date(y, m, d)` roll an
  out-of-range day into the next month, and how the constructor reads years
  0..99 as 1900..1999.
- **Text** (`text.dfy`, module `Text`): `trim()`, the regex classes `\s`
  and `\d`, `parseInt(s, 10)`, `String(n)` and `padStart(2, '0')`.
- **Date text** (`datetext.dfy`, module `DateText`): `formatDate` and
  `parseDateInput`. The regex `^(\d{1,2})\/(\d{1,2})\/(\d{4})$` is written
  out as a matcher with its three capture groups.
- **Calendar** (`calendar.dfy`, module `Calendar`): `renderCalendar`,
  `renderMonthSelector` and `renderYearSelector`. Each is a method with the
  script's own loops. The 42 date cells are also given in closed form by
  `GridCell`.
- **Navigation** (`navigation.dfy`, module `Navigation`): what the month
  buttons, the month and year picks and the year-range buttons do to the
  cursor `currentDate` and to the window anchor `currentYearRange`.
- **Picker** (`picker.dfy`, module `Picker`): class `DatePicker`, one field
  per piece of picker state and one method per handler. The fields are the
  cursor, the selection, the year anchor, the three panel flags and the
  display text. The panel flags are also modelled as a transition function
  on `Panels`.
- **Validators** (`validators.dfy`, module `Validators`): the six field
  validators with their exact messages, and `validateForm`.
- `wrappers.dfy` holds the `Option` type, which stands for a value or `null`.

The clock is a parameter: `today` is the date of `new Date()` and
`currentYear` is `new Date().getFullYear()`.

## Model

| member | source | states |
|---|---|---|
| `Dates.DaysInMonth` | script.js:264-265 | The month length is 28..31: 29 exactly for February of a leap year, 28 for any other February, 30 exactly for April, June, September and November. |
| `Dates.GetMonth` | script.js:241 | `getMonth()`: the zero-based month index (also at script.js:333, 421, 427). |
| `Dates.DayNumber` | script.js:206 | Days from 1 January 1970 to the date's local midnight, negative before it: the ECMAScript `Day(t)`, on which `date > today` is decided (also at script.js:284). |
| `Dates.Weekday` | script.js:263 | `getDay()` is a weekday index 0..6. |
| `Dates.Roll` | script.js:198 | MakeDay for a day 1..31 always gives a real date. |
| `Dates.RollDayNumber` | script.js:198 | That date lies exactly `day - 1` days after the first of (y, m), across the month's end. |
| `Dates.SetMonth` | script.js:421 | `setMonth(index)` keeps the cursor a real date. |
| `Dates.SetMonthDayNumber` | script.js:421 | `setMonth(index)` lands `day - 1` days after the first of the month that the index folds to by floor division. |
| `Dates.SetFullYear` | script.js:371 | `setFullYear(y)` keeps the cursor a real date. |
| `Dates.SetFullYearDayNumber` | script.js:371 | `setFullYear(y)` lands `day - 1` days after the first of the same month in year y. |
| `Dates.MakeFullYear` | script.js:198 | The constructor's year: 0..99 is read as 1900..1999, any other year is kept. |
| `Dates.ConstructDate` | script.js:198 | `new Date(y, index, day)` gives a real date. |
| `Dates.ConstructDateDayNumber` | script.js:198 | That date lies `day - 1` days after the first of that month of MakeFullYear(y). |
| `Dates.NextMonthFirstDay` | script.js:264 | The first of the next month comes DaysInMonth days after the first of this one; year ends included. |
| `Dates.DayFromYearStep` | script.js:263-265 | Each year adds DaysInYear days to the day numbers. |
| `Dates.DayFromYearMonotone` | script.js:263-265 | The first of January of a later year comes at least a whole year later. |
| `Dates.After` | script.js:206 | `date > today` read on calendar days: a later year, or the same year and a later month, or the same month and a later day. |
| `Dates.AfterIsLaterDay` | script.js:206 | For real dates, After is calendar order: it holds iff the day number is larger. |
| `Dates.DayNumberInjective` | script.js:201 | Two real dates with the same day number are equal. |
| `Dates.RollKeeps` | script.js:338 | A day that exists in the target month is kept. |
| `Dates.RollSpills` | script.js:338 | A day past the target month's end lands on day 1..3 of the next month. |
| `Dates.WeekdayInMonth` | script.js:263 | Within a month, the weekday advances by one per day, modulo 7. |
| `Dates.KnownWeekdays` | script.js:263 | 1 January 1970 is day 0 and a Thursday; 1 January 2024 is a Monday. |
| `Text.Trim` | script.js:187 | `trim()`, also at script.js:46, 51, 55, 60 and 213: leading and trailing characters of the `\s` set removed (the shape is in the next two rows). |
| `Text.IsWhitespace` | script.js:187 | The ECMAScript WhiteSpace and LineTerminator characters: what `trim()` strips and what `\s` matches (also at script.js:47). |
| `Text.TrimStartShape` | script.js:187 | Trimming the start removes only a whitespace prefix and leaves a suffix that starts with a non-space. |
| `Text.TrimEndShape` | script.js:187 | Trimming the end removes only a whitespace suffix and leaves a prefix that ends with a non-space. |
| `Text.TrimOfTrimmed` | script.js:187 | Text whose first and last characters are not whitespace is its own trim. |
| `Text.TrimIdempotent` | script.js:213 | Trimming twice equals trimming once, so the handler's trim followed by the parser's trim is one trim. |
| `Text.TrimEmptyIff` | script.js:46 | `!value.trim()` holds exactly when the value is all whitespace. |
| `Text.DigitsValue` | script.js:191-193 | `parseInt` of k digits is below 10^k. |
| `Text.NatToString` | script.js:172-175 | `String(n)` is a run of digits with no leading zero, and its length is the number of decimal digits of n. |
| `Text.DigitsValueOfNatToString` | script.js:191-193 | `parseInt(String(n)) == n`. |
| `Text.DigitsValueZeroPrefix` | script.js:191 | Leading zeros do not change the value `parseInt` reads. |
| `Text.ZerosValue` | script.js:191 | A run of zeros reads as 0. |
| `Text.FourDigitYears` | script.js:175 | `String(n)` is four digits exactly when 1000 <= n <= 9999. |
| `Text.IntToString` | script.js:175 | `String(n)` and `${year}`: the digits of \|n\| without leading zeros, with a minus sign in front of a negative n. A negative year is reachable, because prev-range has no limit (also at script.js:247, 359). |
| `Text.PadStart2` | script.js:172-173 | The result has length max(2, \|s\|), ends with s and is filled with '0' in front. |
| `Text.PadStart2RoundTrip` | script.js:172-173 | A day or month 1..99, padded to two characters, is two digits that read back as the same number. |
| `Text.DigitsDetermined` | script.js:191-193 | Two digit strings of the same length that `parseInt` reads as the same number are the same string. |
| `Text.LeadingDigitValue` | script.js:191-193 | A digit string without a leading zero is worth at least 10^(length - 1). |
| `Text.PrintedLength` | script.js:172-175 | `String` prints the value of a digit string without a leading zero with as many digits as the string has. |
| `Text.NatToStringLength` | script.js:172-175 | `String(n)` has exactly m digits when 10^(m-1) <= n < 10^m. |
| `Text.PrintedDigits` | script.js:172-193 | `String(parseInt(s, 10)) == s` iff s has no leading zero or is a single digit. |
| `Text.PadStart2OfValue` | script.js:172-192 | A one- or two-digit group worth at least 1 pads to what its printed value pads to, so "5" and "05" are both shown as "05". |
| `DateText.FormatDate` | script.js:170-176 | `formatDate`: day and month printed in decimal and padded to two characters, then the year printed without padding, joined by '/'. |
| `DateText.MatchDateRegex` | script.js:186-187 | Returns the capture groups exactly when the text matches `^(\d{1,2})\/(\d{1,2})\/(\d{4})$`; no other groups would match. |
| `DateText.MatchShape` | script.js:186 | A match fixes the positions of both slashes and each group's slice of the text. |
| `DateText.MatchesDetermined` | script.js:186 | A text matches with at most one set of groups. |
| `DateText.NoOtherMatch` | script.js:186 | A text without the pattern's shape at the slash positions matches no groups. |
| `DateText.ParseDateInput` | script.js:185-209 | Any date returned is a real date that is not after today. |
| `DateText.ParseOfTrimmed` | script.js:213-222 | Parsing the trimmed text gives the same result as parsing the raw text. |
| `DateText.Decode` | script.js:191-193 | `parseInt(·, 10)` of the day, month and year groups, as a date. |
| `DateText.ConstructDateExact` | script.js:198-203 | The constructor gives back the typed numbers exactly when they form a real date and the year is at least 100. |
| `DateText.ParseDateInputSpec` | script.js:185-209 | A date is returned iff the trimmed text matches with groups whose numbers form a real date, with year >= 100, not after today. It is then exactly the decoded date. |
| `DateText.ParseRejectsUnmatched` | script.js:189 | Text that does not match gives null. |
| `DateText.FormatDateShape` | script.js:170-176 | `formatDate` is day and month as two digits each, then the unpadded year, separated by '/'. The text has no whitespace at either end. |
| `DateText.FormattedCaptures` | script.js:170-176 | If formatted text matches, its year group is `String(year)`. |
| `DateText.PaddedCaptures` | script.js:186-187 | Two-digit day and month groups are the ones the regex captures. |
| `DateText.FormatThenParse` | script.js:170-209 | For a real date not after today, `parseDateInput(formatDate(d)) == d` iff 1000 <= year <= 9999. |
| `DateText.ParseWithCaptures` | script.js:185-209 | Given the matched groups, the result is the decoded date if acceptable, and null otherwise. |
| `DateText.ParseThenFormat` | script.js:185-228 | Accepted text gives the decoded date, and `formatDate` of it is the typed groups with day and month padded to two digits iff the year group has no leading zero. |
| `DateText.ZeroLedDecode` | script.js:191-193 | The groups "01", "01", "0999" read as 1 January 999. |
| `DateText.ZeroLedFormat` | script.js:170-176 | 1 January 999 formats as "01/01/999". |
| `DateText.ZeroLedYearExample` | script.js:185-228 | "01/01/0999", when not after today, is accepted as 1 January 999 and shown back as "01/01/999". |
| `DateText.ParseRejectsThirtyFirstFebruary` | script.js:198-203 | "31/02/2024" gives null. |
| `DateText.ParseRejectsCommonYearLeapDay` | script.js:198-203 | "29/02/2023" gives null. |
| `DateText.ParseAcceptsLeapDay` | script.js:185-209 | "29/2/2024" gives 29 February 2024. |
| `DateText.ParseRejectsTwoDigitEraYear` | script.js:198-203 | "01/01/0050" gives null, because the constructor moves year 50 to 1950. |
| `Calendar.FirstDay` | script.js:263 | The weekday of the first of the displayed month is 0..6. |
| `Calendar.RenderCalendar` | script.js:237-312 | Title "Month year". The next button is disabled iff the cursor's (year, month) is today's. Then 7 headers Sun..Sat and 42 date cells, cell k being `GridCell(k)`. |
| `Calendar.DateCells` | script.js:262-311 | The 42 date cells are exactly GridCell(0) .. GridCell(41), in order. |
| `Calendar.RenderMonthSelector` | script.js:323-346 | Twelve items, January..December in order; only the cursor's month is marked. |
| `Calendar.YearWindowEnd` | script.js:351-357 | The last listed year is min(anchor + 5, currentYear). |
| `Calendar.RenderYearSelector` | script.js:348-379 | Label "start - end". The items are years anchor-6 .. min(anchor+5, currentYear), consecutive: at most 12 and none after currentYear. Only the cursor's year is marked. |
| `Calendar.GridCell` | script.js:262-311 | Cell k of the 42: before FirstDay a previous-month cell showing daysInPrevMonth - FirstDay + 1 + k; then the month's days 1..daysInMonth, each disabled iff after today and marked 'today' and 'selected' by date equality; then next-month cells counting from 1. |
| `Calendar.CellDate` | script.js:281 | The date a cell stands for: `new Date(year, month, day)` for a current-month cell, with the year read as the constructor reads it. An other-month cell stands for its day in the previous or next month, with the year wrapped. |
| `Calendar.Clickable` | script.js:284-288 | A cell gets the click handler that calls `selectDate` iff it is a current-month cell that is not disabled. |
| `Calendar.GridCellDay` | script.js:263-311 | Every cell k stands for a real date: `k - FirstDay` days after the first of the displayed month. |
| `Calendar.PrevMonthCellDay` | script.js:268-273 | The trailing cell `daysInPrevMonth - i` is the real date i + 1 days before the first. |
| `Calendar.NextMonthCellDay` | script.js:304-311 | The leading next-month cells are real dates that continue after the month's last day. |
| `Calendar.GridCellsConsecutive` | script.js:268-311 | Neighbouring cells are consecutive days, across both month boundaries. |
| `Calendar.GridColumnIsWeekday` | script.js:254-311 | Cell k falls on weekday k mod 7, under header `DayHeaders[k mod 7]`. |
| `Calendar.WeekdayShift` | script.js:263-268 | Counting from the Sunday before the first, the k-th day is weekday k mod 7. |
| `Calendar.GridCoversMonthOnce` | script.js:276-302 | The current-month cells are exactly cells FirstDay .. FirstDay + daysInMonth - 1. They show days 1..daysInMonth, each exactly once. |
| `Calendar.TodayMarkedOnce` | script.js:291-293 | Only today's cell carries 'today', and only in today's month. In today's month its cell does carry it. |
| `Calendar.SelectedMarkedOnce` | script.js:296-298 | The cell marked 'selected' is the selected date's own cell. |
| `Calendar.ClickableIffNotFuture` | script.js:284-288 | A cell gets the click handler iff it is a current-month day that is not after today. |
| `Navigation.PrevMonthCursor` | script.js:420-423 | Prev-month keeps the cursor a real date. |
| `Navigation.PrevMonthSteps` | script.js:420-423 | Prev-month moves to the previous month (the year wraps) when the day exists there. Otherwise the day rolls over and the cursor stays in its month, e.g. Mar 31 becomes Mar 3. |
| `Navigation.PrevMonthOrdinal` | script.js:421 | The month ordinal falls by one, or stays the same after a roll-over. |
| `Navigation.NextMonthAllowed` | script.js:427 | The next-month guard: the cursor's month index is below today's, or its year is below today's. |
| `Navigation.NextMonthCursor` | script.js:425-431 | Next-month keeps the cursor a real date. |
| `Navigation.NextMonthSteps` | script.js:425-431 | When the guard fails the cursor is unchanged. Otherwise it is the next month, or the month after when the day does not exist, e.g. Oct 31 becomes Dec 1. |
| `Navigation.NextMonthOrdinal` | script.js:425-431 | An allowed next-month advances the month ordinal by 1 or 2; a refused one changes nothing. |
| `Navigation.NextMonthGuard` | script.js:427 | While the cursor's year is not past today's year, the guard holds exactly for months before today's, and the year stays not past today's. |
| `Navigation.NextMonthCanPassToday` | script.js:427-428 | With today in November, next-month from Oct 31 shows December, a future month. |
| `Navigation.PickMonthCursor` | script.js:337-342 | A month pick keeps the cursor a real date. |
| `Navigation.PickMonthLands` | script.js:338 | Picking a month keeps the year and day when the day exists there. Otherwise it lands early in the following month. |
| `Navigation.PickYearCursor` | script.js:370-375 | A year pick keeps the cursor a real date. |
| `Navigation.PickYearLands` | script.js:371 | Picking a year keeps month and day, except that 29 February in a non-leap year becomes 1 March. |
| `Navigation.PrevYearRange` | script.js:454-457 | Prev-range moves the anchor twelve years back, with no limit. |
| `Navigation.NextYearRange` | script.js:459-468 | Next-range moves the anchor twelve years on when anchor + 12 + 5 <= currentYear, and otherwise keeps it. |
| `Navigation.NextYearRangeMoves` | script.js:459-468 | Next-range adds 12 iff anchor + 17 <= currentYear, and otherwise does nothing. |
| `Navigation.NextUndoesPrev` | script.js:454-468 | Next-range undoes a prev-range iff anchor + 5 <= currentYear. |
| `Navigation.ReachableAnchors` | script.js:454-468 | Every anchor reachable from the initial one is currentYear, or lies at least 12 below it in steps of 12. |
| `Navigation.RecentYearsLost` | script.js:348-357 | Once the anchor has moved, the window's last year is at most currentYear - 7. |
| `Navigation.PrevThenNextStuck` | script.js:454-468 | Prev-range then next-range from the initial anchor leaves it 12 below. |
| `Picker.DatePicker.constructor` | script.js:29-31 | Initial state: cursor today, no selection, anchor today's year, panels hidden, display empty. |
| `Picker.DatePicker.Initialize` | script.js:598-602 | Renders the calendar, the month list and the year list for the current state. |
| `Picker.DatePicker.ClickDisplay` | script.js:413-418 | Toggles the calendar and hides both lists; nothing else changes. |
| `Picker.DatePicker.PrevMonth` | script.js:420-423 | The cursor becomes PrevMonthCursor(old cursor) and the calendar is redrawn; nothing else changes. |
| `Picker.DatePicker.NextMonth` | script.js:425-431 | The cursor becomes NextMonthCursor(old cursor). The calendar is redrawn exactly when the guard holds; nothing else changes. |
| `Picker.DatePicker.ClickMonthButton` | script.js:433-439 | Only the month list shows, and it is rendered; nothing else changes. |
| `Picker.DatePicker.ClickYearButton` | script.js:441-447 | Only the year list shows, and it is rendered; nothing else changes. |
| `Picker.DatePicker.CloseMonthSelector` | script.js:449-452 | The month list hides and the calendar shows; the year list is left as it was. |
| `Picker.DatePicker.PickMonth` | script.js:337-342 | The cursor becomes PickMonthCursor. The month list hides, the calendar shows and is redrawn. |
| `Picker.DatePicker.PickYear` | script.js:370-375 | The cursor becomes PickYearCursor. The year list hides, the calendar shows and is redrawn. |
| `Picker.DatePicker.PrevYearRange` | script.js:454-457 | The anchor falls by 12 and the year list is redrawn. |
| `Picker.DatePicker.NextYearRange` | script.js:459-468 | The anchor follows NextYearRange. The list is redrawn exactly when anchor + 17 <= currentYear. |
| `Picker.DatePicker.ClickOutside` | script.js:471-477 | All three panels hide; nothing else changes. |
| `Picker.DatePicker.SelectDate` | script.js:314-321 | The selection is d and the display shows formatDate(d). The calendar hides and is redrawn with the new selection; the cursor is kept. |
| `Picker.DatePicker.AcceptEntry` | script.js:226-232 | A parsed date becomes both selection and cursor, the display is rewritten, and the calendar is drawn for it. |
| `Picker.ParseTrimmedInput` | script.js:213-223 | Parsing the trimmed field text gives the same result as parsing the field's text itself. |
| `Picker.DatePicker.EditDisplay` | script.js:212-234 | Blank text clears the selection. Parseable text sets selection and cursor to the parsed date, rewrites the display and redraws. Any other text leaves selection and cursor unchanged. |
| `Picker.Step` | script.js:413-477 | The panel flags after one event: the display click toggles the calendar and hides both lists; each button shows only its list; close and month pick show the calendar and hide the month list; a year pick shows the calendar and hides the year list; a date click hides the calendar; an outside click hides all. |
| `Picker.DateSelectedHidesAll` | script.js:314-477 | A date click made while only the calendar shows leaves no panel showing, as the document listener's hiding of both lists does. |
| `Picker.StepKeepsAtMostOne` | script.js:413-477 | An event whose control is on screen keeps at most one panel showing. |
| `Picker.RunKeepsAtMostOne` | script.js:413-477 | A sequence of such events keeps at most one panel showing. |
| `Picker.ButtonsShowOnePanel` | script.js:413-447 | The month and year buttons each show exactly their own panel. The display click hides both lists and toggles the calendar, so two clicks restore it. |
| `Picker.OutsideClickIdempotent` | script.js:471-477 | An outside click hides all panels, and a second one changes nothing. |
| `Picker.CloseMonthKeepsYearList` | script.js:449-452 | Closing the month list while the year list shows would leave two panels showing, and that control is not on screen then. |
| `Picker.ClickedDateNotFuture` | script.js:284-288 | A clickable cell passes `selectDate` a real date that is not after today. |
| `Picker.DisplayTextReparses` | script.js:316 | The text `selectDate` writes parses back to the same date iff its year has four digits. |
| `Validators.MatchesName` | script.js:47 | `/^[a-zA-Z\s]+$/`: one or more characters, each an ASCII letter or `\s` whitespace. |
| `Validators.MatchesMobile` | script.js:56 | `/^\d{10}$/`: exactly ten ASCII digits. |
| `Validators.MatchesEmail` | script.js:61 | `/^[^\s@]+@[^\s@]+\.[^\s@]+$/`: an '@' after a non-empty head and a '.' after a non-empty middle and before a non-empty tail, every other character neither whitespace nor '@'. |
| `Validators.FullNameError` | script.js:45-49 | "Full Name is required" for all-whitespace input, else "Full Name must contain only alphabets" when the name pattern fails, else "". |
| `Validators.AddressError` | script.js:50-53 | "Address is required" for all-whitespace input, else "". |
| `Validators.MobileError` | script.js:54-58 | "Mobile Number is required" for all-whitespace input, else "Mobile Number must be exactly 10 digits" when the pattern fails, else "". |
| `Validators.EmailError` | script.js:59-64 | "Email ID is required" for all-whitespace input, else "Please enter a valid email address" when the pattern fails, else "". |
| `Validators.GenderError` | script.js:65-69 | "Please select a gender" unless some option is checked. |
| `Validators.DobError` | script.js:70-73 | "Date of Birth is required" when no date is selected (the ISO text of a selected date is never empty), else "". |
| `Validators.FieldError` | script.js:82-91 | `validateField`'s value read and dispatch: the text of fullName, address, mobile and email goes to their validators, the checked flags to the gender validator, the selection to the dob validator. |
| `Validators.FieldsVisited` | script.js:107 | The fields `every` calls `validateField` on: in order, up to and including the first that fails, or all of them when none fails. |
| `Validators.Every` | script.js:107 | `fields.every(validateField)`: true iff each listed field's validator returns "", checked in order. |
| `Validators.ValidateForm` | script.js:105-108 | `every` over fullName, address, mobile, email, gender, dob in that order. |
| `Validators.EveryIff` | script.js:105-108 | `every` over the fields is true iff no field has an error. |
| `Validators.FieldsVisitedPrefix` | script.js:105-108 | `every` validates a prefix of the fields and stops at the first that fails. |
| `Validators.ValidateFormIff` | script.js:105-108 | `validateForm` is true iff each of the six validators returns "". |
| `Validators.FullNameAccepted` | script.js:45-49 | A full name passes iff it has a letter and only letters and whitespace. It is "required" exactly when all whitespace. |
| `Validators.AddressAccepted` | script.js:50-53 | An address passes iff it is not all whitespace. |
| `Validators.MobileAccepted` | script.js:54-58 | A mobile number passes iff it is exactly ten ASCII digits. It is "required" exactly when all whitespace. |
| `Validators.EmailAccepted` | script.js:59-64 | An email passes iff it matches the email pattern. It is "required" exactly when all whitespace. |
| `Validators.EmailFromParts` | script.js:61 | Any three non-empty parts without whitespace or '@', joined as a@b.c, match. |
| `Validators.EmailToParts` | script.js:61 | A matching email splits into such a@b.c, and its only '@' is the one after a. |
| `Validators.GenderAccepted` | script.js:65-69 | The gender check passes iff some option is checked. |
| `Validators.MobileTooShort` | script.js:56 | "12345" gets "Mobile Number must be exactly 10 digits". |
| `Validators.MobileTenDigits` | script.js:56 | "9876543210" passes. |
| `Validators.EmailWithSuffix` | script.js:61-62 | "a@b.co" passes. |
| `Validators.EmailWithoutDot` | script.js:61-62 | "a@b" gets "Please enter a valid email address". |
| `Validators.FullNameWithDigit` | script.js:47 | "John3" gets "Full Name must contain only alphabets". |

`Text.Pow10Monotone` (powers of ten grow with the exponent) and
`Text.SameDecade` (the bounds 10^(k-1) <= n < 10^k fix k) are arithmetic
helpers of the digit lemmas and model no line of the script.

## Behaviour of the code worth knowing

The model follows the code in each of these cases.

- **The day of month is not normalised.** The cursor keeps its day, and
  `setMonth` and `setFullYear` roll an overflowing day into the next month
  (script.js:338, 371, 421, 428). Examples:
  - Prev-month from 31 March gives 3 March (`Navigation.PrevMonthSteps`).
  - Picking February for a cursor on the 30th lands in March
    (`Navigation.PickMonthLands`).
  - Picking a non-leap year turns 29 February into 1 March
    (`Navigation.PickYearLands`).
- **A future month can be shown.** `renderCalendar` disables the next
  button when the cursor's month is today's (script.js:249-251), so the
  calendar is meant to stop at the current month. Yet:
  - The next-month guard (script.js:427) is checked before the roll-over,
    which can jump two months, from 31 October to 1 December
    (`Navigation.NextMonthCanPassToday`).
  - The month list (script.js:337-342) has no limit at all.
  - In both cases the future days are disabled, but the next button stays
    enabled, since the shown month is not today's.
- **The round trip holds only for four-digit years.**
  - `formatDate` does not pad the year (script.js:174-175), so text with a
    year such as `0999` is accepted and then shown as `999`
    (`DateText.ParseThenFormat`, `DateText.ZeroLedYearExample`).
  - `new Date` reads years 0..99 as 1900..1999, so `parseDateInput` refuses
    real dates in those years (`DateText.ParseRejectsTwoDigitEraYear`).
  - The round trip thus holds exactly for years 1000..9999
    (`DateText.FormatThenParse`).
- **Years 0..99 in the calendar.** When the year list moves the cursor to
  such a year, the title shows the year itself, but the grid is drawn for
  1900 + year. `GridCell` models exactly that.
- **The current years cannot be reached again.** The year list is capped
  at the current year (script.js:354-357), and next-range refuses a window
  that would end past it (script.js:459-468). Its rule
  `anchor + 17 <= currentYear` means that after one prev-range no sequence
  of range clicks lists any of the seven years currentYear - 6 .. currentYear
  again (`Navigation.RecentYearsLost`).
- **Panels are exclusive only on screen.** The close button of the month
  list shows the calendar and leaves the year list alone, and a month or
  year pick does the same to the other list. At most one panel shows only
  because controls in a hidden panel cannot be clicked (`Picker.Enabled`,
  `Picker.RunKeepsAtMostOne`). The year list has no close button.

## Left out

- `adjustPickerPosition` (script.js:382-410): viewport geometry and a
  deferred `setTimeout`, with no effect on the modelled state.
- `saveToLocalStorage` and the load-time log (script.js:532-539, 605-611):
  browser storage and JSON.
- The preview and success modals, `getFormData`, `showPreview`, `resetForm`
  and the submit, confirm and modal handlers (script.js:481-595): page
  plumbing.
- `formatDateLong` (script.js:179-182): the host's locale formatter.
- The `toISOString()` and `new Date(string)` hops (script.js:85, 171, 228,
  316, 488): they pass through UTC and can move the day in some timezones.
  The model keeps the date as the same calendar triple.
- The wall clock: `today` and `currentYear` are parameters. The time of day
  that `currentDate` carries is not kept, since nothing but its date is
  read.
- The time of day of `new Date()` (script.js:205, 242): `today` is its
  calendar date. The comparisons `date > today` and `cellDate > today`
  (script.js:206, 284) put a local midnight against that moment. `After`
  on calendar days gives the same answer, because the moment lies at or
  after today's midnight and before tomorrow's. So a midnight is later
  than it exactly when its day is after today's.
- A date-cell click also reaches the document listener (script.js:471-477).
  By then `renderCalendar` has emptied the grid (script.js:238), which
  detaches the clicked cell, so `closest` finds no wrapper and both lists
  are hidden too. `Picker.Step` and `Picker.DatePicker.SelectDate` keep the
  list flags instead. `Picker.DateSelectedHidesAll` shows that the two
  agree whenever the click is on screen and at most one panel shows.
- Event wiring and element lookups: each handler is a method. The page
  layout in `index.html` is not part of this model. It is assumed that the
  month and year buttons and the date cells sit in the calendar panel, and
  that every picker control lies inside '.date-picker-wrapper'.
- `validateField`'s writes of error text and CSS classes (script.js:93-100),
  the blur/input handlers that call it, and `updateSubmitButton`
  (script.js:111-114). The button is disabled exactly when `ValidateForm`
  is false.
- `Picker.DatePicker.SelectDate`: it does not model the `validateField('dob')`
  and `updateSubmitButton` calls (script.js:318-319), since they only write
  error text and the button state.
- `Dates.SetFullYear`: it and `Navigation.PickYearCursor` ignore the
  ECMAScript time-value range of ±8.64e15 ms, which is 100,000,000 days
  either side of 1 January 1970 (years -271821 to 275760). Prev-range has
  no limit (script.js:454-457). After about 22,800 clicks, a year pick
  below -271821 makes `setFullYear` (script.js:371) return an Invalid
  Date, and `renderCalendar` then computes its title and cells from NaN.
  Here years are unbounded integers, so every pick gives a real date.
  Nothing else in the script reaches those years.
- `Dates.Roll`: it models MakeDay only for days 1..31. Those are the days
  `setMonth`, `setFullYear` and the constructor receive at script.js:198,
  263, 281, 338, 371, 421 and 428. The two day-0 calls
  `new Date(year, month + 1, 0)` and `new Date(year, month, 0)`
  (script.js:264-265) are modelled directly by their results,
  `DaysInMonth(gy, month)` and the `DaysInMonth` of `PrevMonthOf(gy, month)`.
  `Dates.NextMonthFirstDay` and `Calendar.PrevMonthCellDay` show that these
  are the last days of this month and of the previous one.
