/** getDayKey: the viewer's local calendar date of a timestamp as "YYYY-MM-DD". */
module DayKeys {
  import opened Wrappers
  import opened Text

  /** What a Date reports through getFullYear(), getMonth() (0-based) and getDate(). */
  datatype CalendarDate = CalendarDate(year: int, month0: int, date: int)

  /** The components a valid Date can report: month 0..11, day of month 1..31. */
  type LocalDate = d: CalendarDate | 0 <= d.month0 < 12 && 1 <= d.date <= 31
    witness CalendarDate(1970, 0, 1)

  /** `new Date(s)` read in the viewer's time zone: the local date of a created_at string,
      or None when the string is not a date (an Invalid Date). Parsing and the time-zone
      database belong to the platform, so the model takes this as a parameter. */
  type LocalCalendar = string -> Option<LocalDate>

  /** `${date.getFullYear()}`: String() of the year, NaN for an Invalid Date. */
  function YearText(d: Option<LocalDate>): (r: string)
    ensures d.Some? ==> IsIntText(r) && ParseInt(r) == d.value.year
    ensures d.None? ==> !IsIntText(r)
  {
    if d.None? then
      assert "NaN"[0] == 'N';
      "NaN"
    else
      IntStringRoundTrip(d.value.year);
      IntString(d.value.year)
  }

  /** String(date.getMonth() + 1).padStart(2, '0'); "NaN" already has three characters. */
  function MonthText(d: Option<LocalDate>): (r: string)
    ensures d.Some? ==> |r| == 2 && AllDigits(r) && DigitsValue(r) == d.value.month0 + 1
    ensures d.None? ==> !AllDigits(r)
  {
    assert !IsDigit("NaN"[0]);
    if d.None? then "NaN" else PadTwo(d.value.month0 + 1)
  }

  /** String(date.getDate()).padStart(2, '0'). */
  function DateText(d: Option<LocalDate>): (r: string)
    ensures d.Some? ==> |r| == 2 && AllDigits(r) && DigitsValue(r) == d.value.date
    ensures d.None? ==> !AllDigits(r)
  {
    assert !IsDigit("NaN"[0]);
    if d.None? then "NaN" else PadTwo(d.value.date)
  }

  /** getDayKey applied to a timestamp whose local date is d. */
  function DayKey(d: Option<LocalDate>): (k: string)
    ensures k == "NaN-NaN-NaN" <==> d.None?
  {
    var k := YearText(d) + "-" + MonthText(d) + "-" + DateText(d);
    assert k[|k| - 1] == DateText(d)[|DateText(d)| - 1];
    assert d.Some? ==> IsDigit(k[|k| - 1]);
    k
  }

  /** The key of a valid date is the unpadded year, a dash, the month as exactly two digits
      reading 1..12 (getMonth() + 1), a dash, and the day as exactly two digits reading 1..31. */
  lemma DayKeyFormat(d: LocalDate)
    ensures var k := DayKey(Some(d));
      && |k| >= 7
      && k[..|k| - 6] == IntString(d.year)
      && k[|k| - 6] == '-' && k[|k| - 3] == '-'
      && AllDigits(k[|k| - 5..|k| - 3]) && AllDigits(k[|k| - 2..])
      && DigitsValue(k[|k| - 5..|k| - 3]) == d.month0 + 1
      && 1 <= DigitsValue(k[|k| - 5..|k| - 3]) <= 12
      && DigitsValue(k[|k| - 2..]) == d.date
      && 1 <= DigitsValue(k[|k| - 2..]) <= 31
  {
    var y, m, dd := IntString(d.year), MonthText(Some(d)), DateText(Some(d));
    assert DayKey(Some(d)) == y + "-" + m + "-" + dd;
    ThreeParts(y, m, dd, d.month0 + 1, d.date);
  }

  /** Where the parts of y + "-" + m + "-" + dd sit when m and dd are two digits each. */
  lemma ThreeParts(y: string, m: string, dd: string, month: nat, date: nat)
    requires |m| == 2 && |dd| == 2 && AllDigits(m) && AllDigits(dd)
    requires DigitsValue(m) == month && DigitsValue(dd) == date
    ensures var k := y + "-" + m + "-" + dd;
      && |k| == |y| + 6
      && k[..|k| - 6] == y && k[|k| - 6] == '-' && k[|k| - 3] == '-'
      && AllDigits(k[|k| - 5..|k| - 3]) && AllDigits(k[|k| - 2..])
      && DigitsValue(k[|k| - 5..|k| - 3]) == month
      && DigitsValue(k[|k| - 2..]) == date
  {
    var k := y + "-" + m + "-" + dd;
    assert k[|k| - 5..|k| - 3] == m;
    assert k[|k| - 2..] == dd;
  }

  /** The inverse of getDayKey on the keys of valid dates. */
  function ParseDayKey(k: string): Option<LocalDate>
  {
    if |k| < 7 || k[|k| - 6] != '-' || k[|k| - 3] != '-' then None
    else
      var y, mm, dd := k[..|k| - 6], k[|k| - 5..|k| - 3], k[|k| - 2..];
      if !IsIntText(y) || !AllDigits(mm) || !AllDigits(dd) then None
      else
        var m, day := DigitsValue(mm), DigitsValue(dd);
        if 1 <= m <= 12 && 1 <= day <= 31 then Some(CalendarDate(ParseInt(y), m - 1, day)) else None
  }

  /** Reading a day key back recovers the local date; the Invalid Date key reads as None. */
  lemma DayKeyRoundTrip(d: Option<LocalDate>)
    ensures ParseDayKey(DayKey(d)) == d
  {
    if d.Some? {
      DayKeyFormat(d.value);
      IntStringRoundTrip(d.value.year);
    } else {
      assert DayKey(d) == "NaN-NaN-NaN";
    }
  }

  /** Two timestamps share a day key exactly when they share a local date. */
  lemma DayKeyInjective(d1: Option<LocalDate>, d2: Option<LocalDate>)
    ensures DayKey(d1) == DayKey(d2) <==> d1 == d2
  {
    DayKeyRoundTrip(d1);
    DayKeyRoundTrip(d2);
  }

  /** A date whose year is rendered without a minus sign. */
  predicate NonNegativeYear(d: Option<LocalDate>)
  {
    d.None? || d.value.year >= 0
  }

  /** For such dates none of the three parts of the key contains a dash. */
  lemma DayKeyPartsDashFree(d: Option<LocalDate>)
    requires NonNegativeYear(d)
    ensures '-' !in YearText(d) && '-' !in MonthText(d) && '-' !in DateText(d)
  {
    if d.Some? {
      DigitsHaveNoDash(YearText(d));
      DigitsHaveNoDash(MonthText(d));
      DigitsHaveNoDash(DateText(d));
    } else {
      assert "NaN" == ['N', 'a', 'N'];
    }
  }
}
