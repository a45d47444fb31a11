/** getCombinedData of the admin page: the logs of the active tab grouped into one row per
    joined name and local day, then filtered by name and action. */
module AdminPage {
  import opened Wrappers
  import opened DayKeys
  import opened Attendance
  import opened Grouping
  import opened RowFilter
  import opened RowTables

  /** The two tabs of the admin page. */
  datatype Tab = EmployeeTab | InternTab

  /** The page state getCombinedData reads: the active tab, the logs last fetched for each
      tab (newest first, as the query orders them) and the two filters. */
  datatype View = View(activeTab: Tab, employeeLogs: seq<Log>, internLogs: seq<Log>,
                       nameFilter: string, actionFilter: ActionFilter)

  /** The logs of the active tab. */
  function ActiveLogs(v: View): seq<Log>
  {
    if v.activeTab == EmployeeTab then v.employeeLogs else v.internLogs
  }

  /** The logs.forEach loop: fold the logs into the table, then read its values. The page's
      getDayKey is passed in; the fold does not depend on how it renders a date. */
  method GroupLogs(logs: seq<Log>, getDayKey: string -> string) returns (rows: seq<Row>)
    ensures rows == Grouped(logs, getDayKey)
  {
    var table := new RowTable();
    var i := 0;
    while i < |logs|
      invariant 0 <= i <= |logs|
      invariant table.Valid()
      invariant table.order == FirstSeen(logs[..i], getDayKey)
      invariant forall k | k in table.rows :: table.rows[k] == RowFor(logs[..i], k, getDayKey)
    {
      var log := logs[i];
      ghost var done, done' := logs[..i], logs[..i + 1];
      assert done' == done + [log];
      FirstSeenAppend(done, log, getDayKey);
      var name := NameOf(log);
      if name.Some? {
        var dayKey := getDayKey(log.createdAt);
        var key := RowKey(name.value, dayKey);
        assert KeyOf(log, getDayKey) == Some(key);
        var found := table.Get(key);
        var existing := if found.Some? then found.value else Row(key, name.value, None, None);
        match log.action {
          case Entry => existing := existing.(entry := Some(log.createdAt));
          case Exit => existing := existing.(exit := Some(log.createdAt));
        }
        table.Set(key, existing);
      }
      ghost var newOrder, newRows := table.order, table.rows;
      assert newOrder == FirstSeen(done', getDayKey);
      forall k | k in newRows ensures newRows[k] == RowFor(done', k, getDayKey) {
        RowForAppend(done, log, k, getDayKey);
      }
      i := i + 1;
      assert done' == logs[..i];
    }
    assert logs[..i] == logs;
    rows := table.Values();
  }

  /** getCombinedData(): the grouped rows of the active tab that pass the filters. */
  method GetCombinedData(v: View, cal: LocalCalendar) returns (rows: seq<Row>)
    ensures rows == FilterRows(Grouped(ActiveLogs(v), GetDayKey(cal)), v.nameFilter, v.actionFilter)
    ensures v.nameFilter == "" && v.actionFilter == All ==> rows == Grouped(ActiveLogs(v), GetDayKey(cal))
    ensures forall r | r in rows :: r.entry.Some? || r.exit.Some?
  {
    var logs := ActiveLogs(v);
    var grouped := GroupLogs(logs, GetDayKey(cal));
    rows := FilterRows(grouped, v.nameFilter, v.actionFilter);
    FilterAllIsIdentity(grouped);
    GroupedRowsHaveTime(logs, GetDayKey(cal));
  }
}
