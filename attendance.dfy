/** The attendance log records the admin page reads, and the rows it builds from them. */
module Attendance {
  import opened Wrappers
  import opened Text
  import opened DayKeys

  /** The action column of a log: 'entry' | 'exit'. */
  datatype Action = Entry | Exit

  /** The joined person record (`employee(name)` or `intern(name)`): only the name is selected. */
  datatype Person = Person(name: string)

  /** One fetched log row: an employee log (emp_id, employee) or an intern log (intern_id, intern);
      the two shapes differ only in the names of the person columns. */
  datatype Log = Log(id: int, createdAt: string, action: Action, personId: int, person: Option<Person>)

  /** One row of the admin table: entry and exit are created_at strings, absent until set. */
  datatype Row = Row(key: string, name: string, entry: Option<string>, exit: Option<string>)

  /** The joined name of a log, or None when `!name` holds: no joined person, or an empty name. */
  function NameOf(log: Log): Option<string>
  {
    if log.person.Some? && log.person.value.name != "" then Some(log.person.value.name) else None
  }

  /** `${name}-${dayKey}`. */
  function RowKey(name: string, dayKey: string): string
  {
    name + "-" + dayKey
  }

  /** getDayKey as a function of the created_at string: the day key of its local date. */
  function GetDayKey(cal: LocalCalendar): string -> string
  {
    s => DayKey(cal(s))
  }

  /** Two timestamps get the same getDayKey exactly when their local dates are the same. */
  lemma SameDayKey(cal: LocalCalendar, s: string, t: string)
    ensures GetDayKey(cal)(s) == GetDayKey(cal)(t) <==> cal(s) == cal(t)
  {
    DayKeyInjective(cal(s), cal(t));
  }

  /** The key a log is grouped under, given the page's getDayKey, or None when the log is
      skipped for want of a name. */
  function KeyOf(log: Log, dayKeyOf: string -> string): (k: Option<string>)
    ensures k.Some? <==> NameOf(log).Some?
  {
    match NameOf(log)
    case None => None
    case Some(name) => Some(RowKey(name, dayKeyOf(log.createdAt)))
  }

  /** For dates from year 0 on the key determines both the name and the local date. */
  lemma RowKeyInjective(n1: string, d1: Option<LocalDate>, n2: string, d2: Option<LocalDate>)
    requires NonNegativeYear(d1) && NonNegativeYear(d2)
    requires RowKey(n1, DayKey(d1)) == RowKey(n2, DayKey(d2))
    ensures n1 == n2 && d1 == d2
  {
    DayKeyPartsDashFree(d1);
    DayKeyPartsDashFree(d2);
    SplitFourParts(n1, YearText(d1), MonthText(d1), DateText(d1),
                   n2, YearText(d2), MonthText(d2), DateText(d2), '-');
    assert DayKey(d1) == DayKey(d2);
    DayKeyInjective(d1, d2);
  }

  /** A year before year 0 is written with a minus sign, so the dash that joins name and
      day key can be read as part of either: "Ann" on 1 January of year -5 and "Ann-" on
      1 January of year 5 share the key "Ann--5-01-01". */
  lemma NegativeYearKeysCollide()
    ensures RowKey("Ann", DayKey(Some(CalendarDate(-5, 0, 1))))
         == RowKey("Ann-", DayKey(Some(CalendarDate(5, 0, 1))))
  {
    assert DigitChar(5) == '5' && DigitChar(1) == '1';
    assert NatString(5) == "5" && NatString(1) == "1";
    assert PadStart("1", 2, '0') == "01";
    assert PadTwo(1) == "01";
    var early, late := Some(CalendarDate(-5, 0, 1)), Some(CalendarDate(5, 0, 1));
    assert YearText(early) == "-5" && YearText(late) == "5";
    assert MonthText(early) == MonthText(late) == "01";
    assert DateText(early) == DateText(late) == "01";
    assert RowKey("Ann", DayKey(early)) == "Ann--5-01-01";
    assert RowKey("Ann-", DayKey(late)) == "Ann--5-01-01";
  }
}
