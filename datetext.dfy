/**
 * The picker's text form of a date: `formatDate` (script.js:170-176) prints
 * DD/MM/YYYY and `parseDateInput` (script.js:185-209) reads D/M/YYYY or
 * DD/MM/YYYY back, refusing impossible and future dates.
 */
module DateText {
  import opened Wrappers
  import opened Text
  import opened Dates

  /** `formatDate`: day and month zero-padded to two digits, the year as `String` prints it. */
  function FormatDate(d: Date): string {
    PadStart2(IntToString(d.day)) + "/" + PadStart2(IntToString(d.month)) + "/" + IntToString(d.year)
  }

  /** The three groups captured by `/^(\d{1,2})\/(\d{1,2})\/(\d{4})$/`. */
  datatype Captures = Captures(day: string, month: string, year: string)

  /** The regex matches t with these groups. */
  predicate Matches(t: string, c: Captures) {
    && t == c.day + "/" + c.month + "/" + c.year
    && 1 <= |c.day| <= 2 && AllDigits(c.day)
    && 1 <= |c.month| <= 2 && AllDigits(c.month)
    && |c.year| == 4 && AllDigits(c.year)
  }

  /** `t.match(dateRegex)`: the groups when the regex matches (they are then unique), else no match. */
  function MatchDateRegex(t: string): (r: Option<Captures>)
    ensures r.Some? ==> Matches(t, r.value)
    ensures forall c :: Matches(t, c) ==> r == Some(c)
  {
    if |t| < 8 || |t| > 10 then None
    else
      var dl := if t[1] == '/' then 1 else 2;
      var ml := if t[dl + 2] == '/' then 1 else 2;
      if && |t| == dl + ml + 6
         && t[dl] == '/' && t[dl + 1 + ml] == '/'
         && AllDigits(t[..dl]) && AllDigits(t[dl + 1..dl + 1 + ml]) && AllDigits(t[dl + ml + 2..])
      then
        var c := Captures(t[..dl], t[dl + 1..dl + 1 + ml], t[dl + ml + 2..]);
        assert t == c.day + "/" + c.month + "/" + c.year;
        MatchesDetermined(t, c);
        Some(c)
      else
        NoOtherMatch(t);
        None
  }

  /** Each group's length is fixed by where the slashes are. */
  lemma MatchShape(t: string, c: Captures)
    requires Matches(t, c)
    ensures |t| == |c.day| + |c.month| + 6
    ensures (|c.day| == 1) == (t[1] == '/')
    ensures (|c.month| == 1) == (t[|c.day| + 2] == '/')
    ensures t[..|c.day|] == c.day
    ensures t[|c.day| + 1..|c.day| + 1 + |c.month|] == c.month
    ensures t[|c.day| + |c.month| + 2..] == c.year
    ensures t[|c.day|] == '/' && t[|c.day| + 1 + |c.month|] == '/'
  {
    var dl, ml := |c.day|, |c.month|;
    assert t[1] == if dl == 1 then '/' else c.day[1];
    assert t[dl + 2] == if ml == 1 then '/' else c.month[1];
  }

  lemma MatchesDetermined(t: string, c: Captures)
    requires Matches(t, c)
    ensures forall c' :: Matches(t, c') ==> c' == c
  {
    forall c' | Matches(t, c') ensures c' == c {
      MatchShape(t, c);
      MatchShape(t, c');
    }
  }

  lemma NoOtherMatch(t: string)
    requires 8 <= |t| <= 10
    requires var dl := if t[1] == '/' then 1 else 2;
      var ml := if t[dl + 2] == '/' then 1 else 2;
      !(&& |t| == dl + ml + 6
        && t[dl] == '/' && t[dl + 1 + ml] == '/'
        && AllDigits(t[..dl]) && AllDigits(t[dl + 1..dl + 1 + ml]) && AllDigits(t[dl + ml + 2..]))
    ensures forall c :: !Matches(t, c)
  {
    forall c | Matches(t, c) ensures false {
      MatchShape(t, c);
    }
  }

  /** The numbers the groups spell, as `parseInt(match[i], 10)` reads them. */
  function Decode(c: Captures): Date
    requires AllDigits(c.day) && AllDigits(c.month) && AllDigits(c.year)
  {
    Date(DigitsValue(c.year), DigitsValue(c.month), DigitsValue(c.day))
  }

  /**
   * `parseDateInput(text)` with `new Date()` read as `today`: the trimmed
   * text must match the regex, day and month must be in range, the host's
   * `new Date(year, month - 1, day)` must give back the same numbers, and
   * the date must not be after today.
   */
  function ParseDateInput(text: string, today: Date): (r: Option<Date>)
    ensures r.Some? ==> IsRealDate(r.value) && !After(r.value, today)
  {
    match MatchDateRegex(Trim(text))
    case None => None
    case Some(c) =>
      var day := DigitsValue(c.day);
      var month := DigitsValue(c.month);
      var year := DigitsValue(c.year);
      if day < 1 || day > 31 || month < 1 || month > 12 then None
      else
        var date := ConstructDate(year, month - 1, day);
        if date.year != year || date.month != month || date.day != day then None
        else if After(date, today) then None
        else Some(date)
  }

  // ---------------------------------------------------------------------
  // Lemmas
  // ---------------------------------------------------------------------

  /** The parser trims its input itself, so trimming first changes nothing. */
  lemma ParseOfTrimmed(text: string, today: Date)
    ensures ParseDateInput(Trim(text), today) == ParseDateInput(text, today)
  {
    TrimIdempotent(text);
  }

  /**
   * The constructor gives back the numbers it was given exactly when they
   * form a real date and the year is not one the constructor rewrites
   * (0..99 become 1900..1999).
   */
  lemma ConstructDateExact(y: nat, m: int, day: int)
    requires 1 <= m <= 12 && 1 <= day <= 31
    ensures ConstructDate(y, m - 1, day) == Date(y, m, day) <==> y >= 100 && day <= DaysInMonth(y, m)
  {
    var fy := MakeFullYear(y);
    if day <= DaysInMonth(fy, m) {
      RollKeeps(fy, m, day);
    } else {
      RollSpills(fy, m, day);
    }
  }

  /** What the regex and the numbers must satisfy for the text to be accepted. */
  predicate Acceptable(c: Captures, today: Date)
    requires AllDigits(c.day) && AllDigits(c.month) && AllDigits(c.year)
  {
    var d := Decode(c);
    IsRealDate(d) && d.year >= 100 && !After(d, today)
  }

  /**
   * `parseDateInput` returns a date exactly when the trimmed text matches
   * and its numbers form a real date from year 100 on that is not after
   * today; it is then that date.
   */
  lemma ParseDateInputSpec(text: string, today: Date)
    ensures ParseDateInput(text, today).Some? <==> exists c :: Matches(Trim(text), c) && Acceptable(c, today)
    ensures forall c :: Matches(Trim(text), c) ==>
      ParseDateInput(text, today) == if Acceptable(c, today) then Some(Decode(c)) else None
  {
    var t := Trim(text);
    match MatchDateRegex(t)
    case None =>
    case Some(c) =>
      var d := Decode(c);
      if 1 <= d.day <= 31 && 1 <= d.month <= 12 {
        ConstructDateExact(d.year, d.month, d.day);
      }
  }

  /** Text that does not match the regex is refused. */
  lemma ParseRejectsUnmatched(text: string, today: Date)
    requires forall c :: !Matches(Trim(text), c)
    ensures ParseDateInput(text, today) == None
  {
  }

  /** The printed form of a real date: two two-digit groups, then the year, with nothing to trim. */
  lemma FormatDateShape(d: Date)
    requires IsRealDate(d)
    ensures var t := FormatDate(d);
      var dd := PadStart2(IntToString(d.day));
      var mm := PadStart2(IntToString(d.month));
      && t == dd + "/" + mm + "/" + IntToString(d.year)
      && |dd| == 2 && AllDigits(dd) && DigitsValue(dd) == d.day
      && |mm| == 2 && AllDigits(mm) && DigitsValue(mm) == d.month
      && Trim(t) == t
  {
    PadStart2RoundTrip(d.day);
    PadStart2RoundTrip(d.month);
    var dd := PadStart2(IntToString(d.day));
    var ys := IntToString(d.year);
    var ns := NatToString(if d.year < 0 then -d.year else d.year);
    var t := dd + "/" + PadStart2(IntToString(d.month)) + "/" + ys;
    assert ys[|ys| - 1] == ns[|ns| - 1];
    DigitNotWhitespace(dd[0]);
    DigitNotWhitespace(ys[|ys| - 1]);
    assert t[0] == dd[0] && t[|t| - 1] == ys[|ys| - 1];
    TrimOfTrimmed(t);
  }

  /** Any match of a printed date captures the printed year as its year group. */
  lemma FormattedCaptures(d: Date, c: Captures)
    requires IsRealDate(d) && Matches(FormatDate(d), c)
    ensures c.year == IntToString(d.year)
  {
    FormatDateShape(d);
    PaddedCaptures(PadStart2(IntToString(d.day)), PadStart2(IntToString(d.month)), IntToString(d.year), c);
  }

  /** Two-digit day and month groups leave only one way to split off the year group. */
  lemma PaddedCaptures(dd: string, mm: string, ys: string, c: Captures)
    requires |dd| == 2 && AllDigits(dd) && |mm| == 2 && AllDigits(mm)
    requires Matches(dd + "/" + mm + "/" + ys, c)
    ensures c.year == ys
  {
    var t := dd + "/" + mm + "/" + ys;
    assert t[1] == dd[1] && t[4] == mm[1] && t[6..] == ys;
    MatchShape(t, c);
    assert |c.day| == 2;
    assert |c.month| == 2;
  }

  /**
   * Round trip: `parseDateInput(formatDate(d))` gives back a real,
   * non-future date d exactly when its year has four digits. Years below
   * 1000 are printed with fewer digits and years from 10000 with more,
   * and the regex then refuses the text.
   */
  lemma FormatThenParse(d: Date, today: Date)
    requires IsRealDate(d) && !After(d, today)
    ensures ParseDateInput(FormatDate(d), today) == Some(d) <==> 1000 <= d.year <= 9999
  {
    FormatDateShape(d);
    FourDigitYears(d.year);
    var t := FormatDate(d);
    ParseDateInputSpec(t, today);
    if 1000 <= d.year <= 9999 {
      var c := Captures(PadStart2(IntToString(d.day)), PadStart2(IntToString(d.month)), IntToString(d.year));
      assert Matches(t, c);
      DigitsValueOfNatToString(d.year);
      assert Decode(c) == d;
    } else if ParseDateInput(t, today).Some? {
      var c :| Matches(t, c) && Acceptable(c, today);
      FormattedCaptures(d, c);
    }
  }

  /** `parseDateInput` on a text whose groups are known. */
  lemma ParseWithCaptures(text: string, today: Date, c: Captures)
    requires Matches(Trim(text), c)
    ensures ParseDateInput(text, today) == if Acceptable(c, today) then Some(Decode(c)) else None
  {
    ParseDateInputSpec(text, today);
  }

  /**
   * The other direction of the round trip: text the handler accepts comes
   * back in the field as its own groups, day and month padded to two
   * digits, exactly when the year group has no leading zero; a year
   * written "0999" is shown as "999".
   */
  lemma ParseThenFormat(text: string, today: Date, c: Captures)
    requires Matches(Trim(text), c) && Acceptable(c, today)
    ensures ParseDateInput(text, today) == Some(Decode(c))
    ensures FormatDate(Decode(c)) == PadStart2(c.day) + "/" + PadStart2(c.month) + "/" + c.year
            <==> c.year[0] != '0'
  {
    ParseWithCaptures(text, today, c);
    var d := Decode(c);
    PadStart2OfValue(c.day);
    PadStart2OfValue(c.month);
    PrintedDigits(c.year);
    var prefix := PadStart2(c.day) + "/" + PadStart2(c.month) + "/";
    assert FormatDate(d) == prefix + IntToString(d.year);
    assert (prefix + IntToString(d.year))[|prefix|..] == IntToString(d.year);
    assert (prefix + c.year)[|prefix|..] == c.year;
  }

  /** "01/01/0999" is accepted as 1 January 999 and then shown as "01/01/999". */
  lemma ZeroLedYearExample(text: string, today: Date)
    requires Trim(text) == "01/01/0999" && !After(Date(999, 1, 1), today)
    ensures ParseDateInput(text, today) == Some(Date(999, 1, 1))
    ensures FormatDate(Date(999, 1, 1)) == "01/01/999"
  {
    var c := Captures("01", "01", "0999");
    ZeroLedDecode();
    assert Matches(Trim(text), c);
    ParseWithCaptures(text, today, c);
    ZeroLedFormat();
  }

  lemma ZeroLedDecode()
    ensures Decode(Captures("01", "01", "0999")) == Date(999, 1, 1)
  {
    assert "01"[..1] == "0" && "0999"[..3] == "099" && "099"[..2] == "09" && "09"[..1] == "0";
  }

  lemma ZeroLedFormat()
    ensures FormatDate(Date(999, 1, 1)) == "01/01/999"
  {
    assert NatToString(999) == "999" by {
      assert NatToString(99) == "99" by { assert NatToString(9) == "9"; }
    }
    assert IntToString(1) == "1";
  }

  lemma DecodeExamples()
    ensures Decode(Captures("31", "02", "2024")) == Date(2024, 2, 31)
    ensures Decode(Captures("29", "02", "2023")) == Date(2023, 2, 29)
    ensures Decode(Captures("29", "2", "2024")) == Date(2024, 2, 29)
    ensures Decode(Captures("01", "01", "0050")) == Date(50, 1, 1)
  {
    assert "31"[..1] == "3" && "02"[..1] == "0" && "29"[..1] == "2" && "01"[..1] == "0";
    assert "2024"[..3] == "202" && "2023"[..3] == "202" && "202"[..2] == "20" && "20"[..1] == "2";
    assert "0050"[..3] == "005" && "005"[..2] == "00" && "00"[..1] == "0";
  }

  /** Example: 31 February is refused. */
  lemma ParseRejectsThirtyFirstFebruary()
    ensures ParseDateInput("31/02/2024", Date(2026, 10, 14)) == None
  {
    DecodeExamples();
    TrimOfTrimmed("31/02/2024");
    ParseWithCaptures("31/02/2024", Date(2026, 10, 14), Captures("31", "02", "2024"));
  }

  /** Example: 29 February of a common year is refused. */
  lemma ParseRejectsCommonYearLeapDay()
    ensures ParseDateInput("29/02/2023", Date(2026, 10, 14)) == None
  {
    DecodeExamples();
    TrimOfTrimmed("29/02/2023");
    ParseWithCaptures("29/02/2023", Date(2026, 10, 14), Captures("29", "02", "2023"));
  }

  /** Example: 29 February of a leap year, typed with a one-digit month, is accepted. */
  lemma ParseAcceptsLeapDay()
    ensures ParseDateInput("29/2/2024", Date(2026, 10, 14)) == Some(Date(2024, 2, 29))
  {
    DecodeExamples();
    TrimOfTrimmed("29/2/2024");
    ParseWithCaptures("29/2/2024", Date(2026, 10, 14), Captures("29", "2", "2024"));
  }

  /** Example: a year the constructor reads as 1950 is refused although the regex matches. */
  lemma ParseRejectsTwoDigitEraYear()
    ensures ParseDateInput("01/01/0050", Date(2026, 10, 14)) == None
  {
    DecodeExamples();
    TrimOfTrimmed("01/01/0050");
    ParseWithCaptures("01/01/0050", Date(2026, 10, 14), Captures("01", "01", "0050"));
  }
}
