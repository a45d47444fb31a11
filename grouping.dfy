/** What the grouping half of getCombinedData computes, stated without its loop: one row per
    distinct `${name}-${dayKey}`, in the order the keys are first seen, whose name comes from the
    first log of the key and whose entry and exit come from the LAST log of that key and action. */
module Grouping {
  import opened Wrappers
  import opened DayKeys
  import opened Attendance

  predicate Distinct(ks: seq<string>)
  {
    forall i, j | 0 <= i < j < |ks| :: ks[i] != ks[j]
  }

  /** Some log of the list is grouped under key k. */
  ghost predicate Occurs(logs: seq<Log>, k: string, dayKeyOf: string -> string)
  {
    exists j | 0 <= j < |logs| :: KeyOf(logs[j], dayKeyOf) == Some(k)
  }

  /** Appending a log adds at most its own key to the keys that occur. */
  lemma OccursAppend(logs: seq<Log>, l: Log, dayKeyOf: string -> string)
    ensures forall k :: Occurs(logs + [l], k, dayKeyOf) <==> Occurs(logs, k, dayKeyOf) || KeyOf(l, dayKeyOf) == Some(k)
  {
    var s := logs + [l];
    assert s[|logs|] == l;
    forall k | Occurs(logs, k, dayKeyOf) ensures Occurs(s, k, dayKeyOf) {
      var j :| 0 <= j < |logs| && KeyOf(logs[j], dayKeyOf) == Some(k);
      assert s[j] == logs[j];
    }
    forall k | Occurs(s, k, dayKeyOf) && KeyOf(l, dayKeyOf) != Some(k) ensures Occurs(logs, k, dayKeyOf) {
      var j :| 0 <= j < |s| && KeyOf(s[j], dayKeyOf) == Some(k);
      assert j < |logs| && s[j] == logs[j];
    }
  }

  /** The distinct keys of the named logs, each listed once, in the order of first appearance. */
  ghost function FirstSeen(logs: seq<Log>, dayKeyOf: string -> string): (ks: seq<string>)
    ensures forall k :: k in ks <==> Occurs(logs, k, dayKeyOf)
    ensures Distinct(ks)
    decreases |logs|
  {
    if logs == [] then []
    else
      var pre, l := logs[..|logs| - 1], logs[|logs| - 1];
      assert logs == pre + [l];
      OccursAppend(pre, l, dayKeyOf);
      var ks := FirstSeen(pre, dayKeyOf);
      match KeyOf(l, dayKeyOf)
      case None => ks
      case Some(k) => if k in ks then ks else ks + [k]
  }

  /** Appending a log appends its key to the first-seen keys when the key is new. */
  lemma FirstSeenAppend(logs: seq<Log>, l: Log, dayKeyOf: string -> string)
    ensures FirstSeen(logs + [l], dayKeyOf)
         == match KeyOf(l, dayKeyOf)
            case None => FirstSeen(logs, dayKeyOf)
            case Some(k) => if k in FirstSeen(logs, dayKeyOf) then FirstSeen(logs, dayKeyOf) else FirstSeen(logs, dayKeyOf) + [k]
  {
    var s := logs + [l];
    assert s[..|s| - 1] == logs && s[|s| - 1] == l;
  }

  /** The position of the first log grouped under k. */
  ghost function FirstIndex(logs: seq<Log>, k: string, dayKeyOf: string -> string): (j: nat)
    requires Occurs(logs, k, dayKeyOf)
    ensures j < |logs| && KeyOf(logs[j], dayKeyOf) == Some(k)
    ensures forall p | 0 <= p < j :: KeyOf(logs[p], dayKeyOf) != Some(k)
    decreases |logs|
  {
    var pre, l := logs[..|logs| - 1], logs[|logs| - 1];
    assert logs == pre + [l];
    OccursAppend(pre, l, dayKeyOf);
    if Occurs(pre, k, dayKeyOf) then FirstIndex(pre, k, dayKeyOf)
    else
      assert forall p | 0 <= p < |pre| :: logs[p] == pre[p];
      |logs| - 1
  }

  /** Log l is grouped under k and carries action a: it writes field a of row k. */
  predicate Writes(l: Log, k: string, a: Action, dayKeyOf: string -> string)
  {
    KeyOf(l, dayKeyOf) == Some(k) && l.action == a
  }

  /** created_at of the last log, in list order, that writes field a of row k. */
  function LastTime(logs: seq<Log>, k: string, a: Action, dayKeyOf: string -> string): Option<string>
    decreases |logs|
  {
    if logs == [] then None
    else if Writes(logs[|logs| - 1], k, a, dayKeyOf) then Some(logs[|logs| - 1].createdAt)
    else LastTime(logs[..|logs| - 1], k, a, dayKeyOf)
  }

  /** The row of key k: the name of the first log of k; entry and exit as the last writes left them. */
  ghost function RowFor(logs: seq<Log>, k: string, dayKeyOf: string -> string): Row
    requires Occurs(logs, k, dayKeyOf)
  {
    Row(k, NameOf(logs[FirstIndex(logs, k, dayKeyOf)]).value,
        LastTime(logs, k, Entry, dayKeyOf), LastTime(logs, k, Exit, dayKeyOf))
  }

  /** The grouped rows, before any filter: one per key, in first-seen order. */
  ghost function Grouped(logs: seq<Log>, dayKeyOf: string -> string): seq<Row>
  {
    var ks := FirstSeen(logs, dayKeyOf);
    seq(|ks|, i requires 0 <= i < |ks| => RowFor(logs, ks[i], dayKeyOf))
  }

  /** The entry or the exit of a row. */
  function Field(r: Row, a: Action): Option<string>
  {
    if a == Entry then r.entry else r.exit
  }

  /** `existing.entry = log.created_at` for an entry log, `existing.exit = log.created_at` for an exit log. */
  function Stamp(r: Row, l: Log): (r': Row)
    ensures r'.key == r.key && r'.name == r.name
    ensures Field(r', l.action) == Some(l.createdAt)
    ensures forall a :: a != l.action ==> Field(r', a) == Field(r, a)
  {
    if l.action == Entry then r.(entry := Some(l.createdAt)) else r.(exit := Some(l.createdAt))
  }

  /** The logs that have a name, in their order: the ones the fold does not skip. */
  function NamedLogs(logs: seq<Log>): (named: seq<Log>)
    ensures |named| <= |logs|
    ensures forall l :: l in named <==> l in logs && NameOf(l).Some?
    decreases |logs|
  {
    if logs == [] then []
    else
      var pre, last := logs[..|logs| - 1], logs[|logs| - 1];
      assert logs == pre + [last];
      var rest := NamedLogs(pre);
      if NameOf(last).Some? then rest + [last] else rest
  }

  // ---------------------------------------------------------------------------
  // Last write wins

  /** If the log at j writes field a of row k and no later log does, the field holds its created_at. */
  lemma {:induction false} LastTimeIsLastWrite(logs: seq<Log>, k: string, a: Action, dayKeyOf: string -> string, j: nat)
    requires j < |logs| && Writes(logs[j], k, a, dayKeyOf)
    requires forall q | j < q < |logs| :: !Writes(logs[q], k, a, dayKeyOf)
    ensures LastTime(logs, k, a, dayKeyOf) == Some(logs[j].createdAt)
    decreases |logs|
  {
    if j < |logs| - 1 {
      var pre := logs[..|logs| - 1];
      assert pre[j] == logs[j];
      LastTimeIsLastWrite(pre, k, a, dayKeyOf, j);
    }
  }

  /** The field stays absent exactly when no log writes it. */
  lemma {:induction false} LastTimeAbsent(logs: seq<Log>, k: string, a: Action, dayKeyOf: string -> string)
    ensures LastTime(logs, k, a, dayKeyOf) == None <==> forall q | 0 <= q < |logs| :: !Writes(logs[q], k, a, dayKeyOf)
    decreases |logs|
  {
    if logs != [] {
      var pre := logs[..|logs| - 1];
      LastTimeAbsent(pre, k, a, dayKeyOf);
      assert forall q | 0 <= q < |pre| :: pre[q] == logs[q];
    }
  }

  /** A field that is present was written by some log of the list. */
  lemma {:induction false} LastTimeWritten(logs: seq<Log>, k: string, a: Action, dayKeyOf: string -> string)
    requires LastTime(logs, k, a, dayKeyOf).Some?
    ensures exists q | 0 <= q < |logs| :: Writes(logs[q], k, a, dayKeyOf)
                                         && LastTime(logs, k, a, dayKeyOf) == Some(logs[q].createdAt)
    decreases |logs|
  {
    if !Writes(logs[|logs| - 1], k, a, dayKeyOf) {
      var pre := logs[..|logs| - 1];
      LastTimeWritten(pre, k, a, dayKeyOf);
      var q :| 0 <= q < |pre| && Writes(pre[q], k, a, dayKeyOf) && LastTime(pre, k, a, dayKeyOf) == Some(pre[q].createdAt);
      assert pre[q] == logs[q];
    }
  }

  // ---------------------------------------------------------------------------
  // One more log

  /** How the row of key k changes when one log l is appended: a log without a name or with
      another key leaves it as it was; a log of key k whose key is new creates it with the name
      of l and only l's action field set; a later log of k keeps the name and overwrites only
      the field of its own action. */
  lemma RowForAppend(logs: seq<Log>, l: Log, k: string, dayKeyOf: string -> string)
    requires Occurs(logs + [l], k, dayKeyOf)
    ensures KeyOf(l, dayKeyOf) != Some(k) ==>
              Occurs(logs, k, dayKeyOf) && RowFor(logs + [l], k, dayKeyOf) == RowFor(logs, k, dayKeyOf)
    ensures KeyOf(l, dayKeyOf) == Some(k) && Occurs(logs, k, dayKeyOf) ==>
              RowFor(logs + [l], k, dayKeyOf) == Stamp(RowFor(logs, k, dayKeyOf), l)
    ensures KeyOf(l, dayKeyOf) == Some(k) && !Occurs(logs, k, dayKeyOf) ==>
              RowFor(logs + [l], k, dayKeyOf) == Stamp(Row(k, NameOf(l).value, None, None), l)
  {
    var s := logs + [l];
    assert s[..|s| - 1] == logs && s[|s| - 1] == l;
    OccursAppend(logs, l, dayKeyOf);
    if Occurs(logs, k, dayKeyOf) {
      var j := FirstIndex(logs, k, dayKeyOf);
      assert FirstIndex(s, k, dayKeyOf) == j;
      assert s[j] == logs[j];
    } else {
      assert FirstIndex(s, k, dayKeyOf) == |logs|;
      LastTimeAbsent(logs, k, Entry, dayKeyOf);
      LastTimeAbsent(logs, k, Exit, dayKeyOf);
      assert forall q | 0 <= q < |logs| :: KeyOf(logs[q], dayKeyOf) != Some(k);
    }
  }

  /** How the grouped rows change when one log is appended: a log without a name changes
      nothing; a log whose key was seen before updates that row where it stands, and only the
      field of its own action; a log with a new key adds its row at the end. */
  lemma GroupedAppend(logs: seq<Log>, l: Log, dayKeyOf: string -> string)
    ensures KeyOf(l, dayKeyOf).None? ==> Grouped(logs + [l], dayKeyOf) == Grouped(logs, dayKeyOf)
    ensures KeyOf(l, dayKeyOf).Some? && Occurs(logs, KeyOf(l, dayKeyOf).value, dayKeyOf) ==>
              var before, after := Grouped(logs, dayKeyOf), Grouped(logs + [l], dayKeyOf);
              && |after| == |before|
              && forall p | 0 <= p < |before| ::
                   after[p] == if before[p].key == KeyOf(l, dayKeyOf).value then Stamp(before[p], l) else before[p]
    ensures KeyOf(l, dayKeyOf).Some? && !Occurs(logs, KeyOf(l, dayKeyOf).value, dayKeyOf) ==>
              Grouped(logs + [l], dayKeyOf)
                == Grouped(logs, dayKeyOf) + [Stamp(Row(KeyOf(l, dayKeyOf).value, NameOf(l).value, None, None), l)]
  {
    var s := logs + [l];
    assert s[..|s| - 1] == logs && s[|s| - 1] == l;
    OccursAppend(logs, l, dayKeyOf);
    var ks, ks' := FirstSeen(logs, dayKeyOf), FirstSeen(s, dayKeyOf);
    var before, after := Grouped(logs, dayKeyOf), Grouped(s, dayKeyOf);
    forall p | 0 <= p < |ks|
      ensures ks'[p] == ks[p] && Occurs(logs, ks[p], dayKeyOf)
      ensures after[p] == if KeyOf(l, dayKeyOf) == Some(ks[p]) then Stamp(before[p], l) else before[p]
    {
      RowForAppend(logs, l, ks[p], dayKeyOf);
    }
    if KeyOf(l, dayKeyOf).Some? && !Occurs(logs, KeyOf(l, dayKeyOf).value, dayKeyOf) {
      RowForAppend(logs, l, KeyOf(l, dayKeyOf).value, dayKeyOf);
    }
  }

  // ---------------------------------------------------------------------------
  // Properties of the grouped rows

  /** Every key of a named log has exactly one row, and every row has the key of some log. */
  lemma GroupedKeys(logs: seq<Log>, dayKeyOf: string -> string)
    ensures var rows := Grouped(logs, dayKeyOf);
      && (forall i, j | 0 <= i < j < |rows| :: rows[i].key != rows[j].key)
      && (forall i | 0 <= i < |rows| :: Occurs(logs, rows[i].key, dayKeyOf))
      && (forall q | 0 <= q < |logs| && KeyOf(logs[q], dayKeyOf).Some? ::
            exists i | 0 <= i < |rows| :: rows[i].key == KeyOf(logs[q], dayKeyOf).value)
  {
    var rows, ks := Grouped(logs, dayKeyOf), FirstSeen(logs, dayKeyOf);
    assert forall i | 0 <= i < |rows| :: rows[i].key == ks[i];
    forall q | 0 <= q < |logs| && KeyOf(logs[q], dayKeyOf).Some?
      ensures exists i | 0 <= i < |rows| :: rows[i].key == KeyOf(logs[q], dayKeyOf).value
    {
      var k := KeyOf(logs[q], dayKeyOf).value;
      assert Occurs(logs, k, dayKeyOf);
      var i :| 0 <= i < |ks| && ks[i] == k;
      assert rows[i].key == k;
    }
  }

  /** Appending a log does not move the first log of a key already seen. */
  lemma FirstIndexAppend(logs: seq<Log>, l: Log, k: string, dayKeyOf: string -> string)
    requires Occurs(logs + [l], k, dayKeyOf)
    ensures Occurs(logs, k, dayKeyOf) ==> FirstIndex(logs + [l], k, dayKeyOf) == FirstIndex(logs, k, dayKeyOf)
    ensures !Occurs(logs, k, dayKeyOf) ==> FirstIndex(logs + [l], k, dayKeyOf) == |logs|
  {
    var s := logs + [l];
    assert s[..|s| - 1] == logs;
  }

  ghost predicate FirstSeenOrdered(logs: seq<Log>, dayKeyOf: string -> string)
  {
    var ks := FirstSeen(logs, dayKeyOf);
    forall i, j | 0 <= i < j < |ks| :: FirstIndex(logs, ks[i], dayKeyOf) < FirstIndex(logs, ks[j], dayKeyOf)
  }

  /** The first-seen keys are listed in the order of their first logs. */
  lemma {:induction false} FirstSeenOrder(logs: seq<Log>, dayKeyOf: string -> string)
    ensures FirstSeenOrdered(logs, dayKeyOf)
    decreases |logs|
  {
    if logs != [] {
      var pre, l := logs[..|logs| - 1], logs[|logs| - 1];
      assert logs == pre + [l];
      FirstSeenOrder(pre, dayKeyOf);
      FirstSeenOrderStep(pre, l, dayKeyOf);
    }
  }

  lemma FirstSeenOrderStep(pre: seq<Log>, l: Log, dayKeyOf: string -> string)
    requires FirstSeenOrdered(pre, dayKeyOf)
    ensures FirstSeenOrdered(pre + [l], dayKeyOf)
  {
    var logs := pre + [l];
    assert logs[..|logs| - 1] == pre && logs[|logs| - 1] == l;
    var ks, ks' := FirstSeen(pre, dayKeyOf), FirstSeen(logs, dayKeyOf);
    assert ks' == ks || (KeyOf(l, dayKeyOf).Some? && ks' == ks + [KeyOf(l, dayKeyOf).value]);
    forall i, j | 0 <= i < j < |ks'|
      ensures FirstIndex(logs, ks'[i], dayKeyOf) < FirstIndex(logs, ks'[j], dayKeyOf)
    {
      FirstSeenPairStep(pre, l, dayKeyOf, i, j);
    }
  }

  lemma FirstSeenPairStep(pre: seq<Log>, l: Log, dayKeyOf: string -> string, i: nat, j: nat)
    requires FirstSeenOrdered(pre, dayKeyOf)
    requires i < j < |FirstSeen(pre + [l], dayKeyOf)|
    ensures var ks' := FirstSeen(pre + [l], dayKeyOf);
      FirstIndex(pre + [l], ks'[i], dayKeyOf) < FirstIndex(pre + [l], ks'[j], dayKeyOf)
  {
    var logs := pre + [l];
    assert logs[..|logs| - 1] == pre && logs[|logs| - 1] == l;
    var ks, ks' := FirstSeen(pre, dayKeyOf), FirstSeen(logs, dayKeyOf);
    assert ks' == ks || (KeyOf(l, dayKeyOf).Some? && ks' == ks + [KeyOf(l, dayKeyOf).value]);
    assert ks'[i] == ks[i] && ks[i] in ks;
    FirstIndexAppend(pre, l, ks[i], dayKeyOf);
    if j < |ks| {
      assert ks'[j] == ks[j] && ks[j] in ks;
      FirstIndexAppend(pre, l, ks[j], dayKeyOf);
    } else {
      assert ks'[j] in ks';
      FirstIndexAppend(pre, l, ks'[j], dayKeyOf);
    }
  }

  /** Rows come out in the order their keys were first seen: a row earlier in the output has
      its first log earlier in the input. */
  lemma GroupedOrder(logs: seq<Log>, dayKeyOf: string -> string)
    ensures var rows := Grouped(logs, dayKeyOf);
      forall i, j | 0 <= i < j < |rows| ::
        && Occurs(logs, rows[i].key, dayKeyOf) && Occurs(logs, rows[j].key, dayKeyOf)
        && FirstIndex(logs, rows[i].key, dayKeyOf) < FirstIndex(logs, rows[j].key, dayKeyOf)
  {
    FirstSeenOrder(logs, dayKeyOf);
    var rows, ks := Grouped(logs, dayKeyOf), FirstSeen(logs, dayKeyOf);
    assert forall i | 0 <= i < |rows| :: rows[i].key == ks[i] && ks[i] in ks;
    forall i, j | 0 <= i < j < |rows|
      ensures FirstIndex(logs, rows[i].key, dayKeyOf) < FirstIndex(logs, rows[j].key, dayKeyOf)
    {
      assert rows[i].key == ks[i] && rows[j].key == ks[j];
    }
  }

  /** A row's name is the name of the first log of its key, and its key is that name, a dash,
      and the day key of that log's created_at. */
  lemma GroupedRowOrigin(logs: seq<Log>, dayKeyOf: string -> string, i: nat)
    requires i < |Grouped(logs, dayKeyOf)|
    ensures var r := Grouped(logs, dayKeyOf)[i];
      && Occurs(logs, r.key, dayKeyOf)
      && var f := FirstIndex(logs, r.key, dayKeyOf);
         NameOf(logs[f]) == Some(r.name) && r.key == RowKey(r.name, dayKeyOf(logs[f].createdAt))
  {
    var ks := FirstSeen(logs, dayKeyOf);
    assert ks[i] in ks;
  }

  /** Last write wins: when the log at j sets field a of a row and no later log of the same
      key and action exists, the row's field is that log's created_at. */
  lemma GroupedFieldIsLastWrite(logs: seq<Log>, dayKeyOf: string -> string, i: nat, a: Action, j: nat)
    requires i < |Grouped(logs, dayKeyOf)| && j < |logs|
    requires Writes(logs[j], Grouped(logs, dayKeyOf)[i].key, a, dayKeyOf)
    requires forall q | j < q < |logs| :: !Writes(logs[q], Grouped(logs, dayKeyOf)[i].key, a, dayKeyOf)
    ensures Field(Grouped(logs, dayKeyOf)[i], a) == Some(logs[j].createdAt)
  {
    var ks := FirstSeen(logs, dayKeyOf);
    assert ks[i] in ks;
    LastTimeIsLastWrite(logs, ks[i], a, dayKeyOf, j);
  }

  /** A field of a row is absent exactly when no log of the row's key has that action; a
      present field was set by a log of that key and action. */
  lemma GroupedFieldWritten(logs: seq<Log>, dayKeyOf: string -> string, i: nat, a: Action)
    requires i < |Grouped(logs, dayKeyOf)|
    ensures var r := Grouped(logs, dayKeyOf)[i];
      && (Field(r, a) == None <==> forall q | 0 <= q < |logs| :: !Writes(logs[q], r.key, a, dayKeyOf))
      && (Field(r, a).Some? ==> exists q | 0 <= q < |logs| :: Writes(logs[q], r.key, a, dayKeyOf)
                                                          && Field(r, a) == Some(logs[q].createdAt))
  {
    var ks := FirstSeen(logs, dayKeyOf);
    assert ks[i] in ks;
    LastTimeAbsent(logs, ks[i], a, dayKeyOf);
    if LastTime(logs, ks[i], a, dayKeyOf).Some? {
      LastTimeWritten(logs, ks[i], a, dayKeyOf);
    }
  }

  /** Every row has its entry or its exit set: the log that created it set one of them. */
  lemma GroupedRowsHaveTime(logs: seq<Log>, dayKeyOf: string -> string)
    ensures forall r | r in Grouped(logs, dayKeyOf) :: r.entry.Some? || r.exit.Some?
  {
    var rows, ks := Grouped(logs, dayKeyOf), FirstSeen(logs, dayKeyOf);
    forall i | 0 <= i < |rows| ensures rows[i].entry.Some? || rows[i].exit.Some? {
      assert ks[i] in ks;
      var f := FirstIndex(logs, ks[i], dayKeyOf);
      assert Writes(logs[f], ks[i], logs[f].action, dayKeyOf);
      LastTimeAbsent(logs, ks[i], logs[f].action, dayKeyOf);
    }
  }

  /** There are at most as many rows as logs with a name. */
  lemma {:induction false} GroupedSize(logs: seq<Log>, dayKeyOf: string -> string)
    ensures |Grouped(logs, dayKeyOf)| <= |NamedLogs(logs)| <= |logs|
    decreases |logs|
  {
    if logs != [] {
      var pre, l := logs[..|logs| - 1], logs[|logs| - 1];
      assert logs == pre + [l];
      GroupedSize(pre, dayKeyOf);
    }
  }

  /** The grouping of a list is the grouping of its named logs, with the others taken out. */
  lemma {:induction false} NamedLogsAgree(logs: seq<Log>, dayKeyOf: string -> string)
    ensures FirstSeen(logs, dayKeyOf) == FirstSeen(NamedLogs(logs), dayKeyOf)
    ensures forall k | Occurs(logs, k, dayKeyOf) ::
              Occurs(NamedLogs(logs), k, dayKeyOf) && RowFor(logs, k, dayKeyOf) == RowFor(NamedLogs(logs), k, dayKeyOf)
    decreases |logs|
  {
    if logs != [] {
      var pre, l := logs[..|logs| - 1], logs[|logs| - 1];
      assert logs == pre + [l];
      NamedLogsAgree(pre, dayKeyOf);
      var n := NamedLogs(pre);
      OccursAppend(pre, l, dayKeyOf);
      if NameOf(l).Some? {
        var n' := n + [l];
        assert n'[..|n'| - 1] == n && n'[|n'| - 1] == l;
        OccursAppend(n, l, dayKeyOf);
        forall k | Occurs(logs, k, dayKeyOf)
          ensures Occurs(n', k, dayKeyOf) && RowFor(logs, k, dayKeyOf) == RowFor(n', k, dayKeyOf)
        {
          RowForAppend(pre, l, k, dayKeyOf);
          RowForAppend(n, l, k, dayKeyOf);
        }
      } else {
        forall k | Occurs(logs, k, dayKeyOf)
          ensures Occurs(n, k, dayKeyOf) && RowFor(logs, k, dayKeyOf) == RowFor(n, k, dayKeyOf)
        {
          RowForAppend(pre, l, k, dayKeyOf);
        }
      }
    }
  }

  lemma GroupedIgnoresOrphans(logs: seq<Log>, dayKeyOf: string -> string)
    ensures Grouped(logs, dayKeyOf) == Grouped(NamedLogs(logs), dayKeyOf)
  {
    NamedLogsAgree(logs, dayKeyOf);
    var ks := FirstSeen(logs, dayKeyOf);
    assert forall i | 0 <= i < |ks| :: ks[i] in ks;
  }

  lemma {:induction false} NamedLogsConcat(a: seq<Log>, b: seq<Log>)
    ensures NamedLogs(a + b) == NamedLogs(a) + NamedLogs(b)
    decreases |b|
  {
    if b != [] {
      var b', l := b[..|b| - 1], b[|b| - 1];
      assert a + b == (a + b') + [l] && (a + b)[..|a + b| - 1] == a + b';
      NamedLogsConcat(a, b');
    } else {
      assert a + b == a;
    }
  }

  /** A log without a joined name, wherever it stands, creates no row and changes no row. */
  lemma OrphanSkipped(pre: seq<Log>, orphan: Log, post: seq<Log>, dayKeyOf: string -> string)
    requires NameOf(orphan).None?
    ensures Grouped(pre + [orphan] + post, dayKeyOf) == Grouped(pre + post, dayKeyOf)
  {
    NamedLogsConcat(pre + [orphan], post);
    NamedLogsConcat(pre, [orphan]);
    NamedLogsConcat(pre, post);
    assert NamedLogs([orphan]) == [];
    GroupedIgnoresOrphans(pre + [orphan] + post, dayKeyOf);
    GroupedIgnoresOrphans(pre + post, dayKeyOf);
  }

  /** With dates from year 0 on, every log grouped into a row has the row's name and the local
      date of the row's first log: the row collects the logs of one joined name on one day. */
  lemma RowLogsShareNameAndDay(logs: seq<Log>, cal: LocalCalendar, i: nat, q: nat)
    requires forall p | 0 <= p < |logs| :: NonNegativeYear(cal(logs[p].createdAt))
    requires i < |Grouped(logs, GetDayKey(cal))| && q < |logs|
    requires KeyOf(logs[q], GetDayKey(cal)) == Some(Grouped(logs, GetDayKey(cal))[i].key)
    ensures var r := Grouped(logs, GetDayKey(cal))[i];
      && Occurs(logs, r.key, GetDayKey(cal))
      && NameOf(logs[q]) == Some(r.name)
      && cal(logs[q].createdAt) == cal(logs[FirstIndex(logs, r.key, GetDayKey(cal))].createdAt)
  {
    var dk := GetDayKey(cal);
    var r := Grouped(logs, dk)[i];
    GroupedRowOrigin(logs, dk, i);
    var f := FirstIndex(logs, r.key, dk);
    var name := NameOf(logs[q]).value;
    assert RowKey(name, DayKey(cal(logs[q].createdAt))) == RowKey(r.name, DayKey(cal(logs[f].createdAt)));
    RowKeyInjective(name, cal(logs[q].createdAt), r.name, cal(logs[f].createdAt));
  }

  /** Logs arrive newest first. Ann enters at 08:00, leaves at 11:00 and enters again at 12:00
      on one local day: her row keeps the 08:00 entry, the earliest of the day, because the
      last write in list order wins. */
  lemma NewestFirstKeepsEarliestEntry(dayKeyOf: string -> string, t12: string, t11: string, t08: string)
    requires dayKeyOf(t12) == dayKeyOf(t11) == dayKeyOf(t08)
    ensures var ann := Some(Person("Ann"));
      Grouped([Log(3, t12, Entry, 7, ann), Log(2, t11, Exit, 7, ann), Log(1, t08, Entry, 7, ann)], dayKeyOf)
        == [Row(RowKey("Ann", dayKeyOf(t08)), "Ann", Some(t08), Some(t11))]
  {
    var ann := Some(Person("Ann"));
    var a, b, c := Log(3, t12, Entry, 7, ann), Log(2, t11, Exit, 7, ann), Log(1, t08, Entry, 7, ann);
    var k := RowKey("Ann", dayKeyOf(t08));
    assert KeyOf(a, dayKeyOf) == KeyOf(b, dayKeyOf) == KeyOf(c, dayKeyOf) == Some(k);
    assert Grouped([], dayKeyOf) == [];
    GroupedAppend([], a, dayKeyOf);
    assert [] + [a] == [a];
    assert Grouped([a], dayKeyOf) == [Row(k, "Ann", Some(t12), None)];
    assert Occurs([a], k, dayKeyOf) by { assert [a][0] == a; }
    GroupedAppend([a], b, dayKeyOf);
    assert [a] + [b] == [a, b];
    assert Grouped([a, b], dayKeyOf) == [Row(k, "Ann", Some(t12), Some(t11))];
    assert Occurs([a, b], k, dayKeyOf) by { assert [a, b][0] == a; }
    GroupedAppend([a, b], c, dayKeyOf);
    assert [a, b] + [c] == [a, b, c];
  }

  /** The key holds the name and not the person's id: two different people both named Ann,
      with ids 7 and 8, share one row on one local day, and the exit of one stands beside
      the entry of the other. */
  lemma SameNameMerges(dayKeyOf: string -> string, t1: string, t2: string)
    requires dayKeyOf(t1) == dayKeyOf(t2)
    ensures var ann := Some(Person("Ann"));
      Grouped([Log(1, t1, Entry, 7, ann), Log(2, t2, Exit, 8, ann)], dayKeyOf)
        == [Row(RowKey("Ann", dayKeyOf(t1)), "Ann", Some(t1), Some(t2))]
  {
    var ann := Some(Person("Ann"));
    var a, b := Log(1, t1, Entry, 7, ann), Log(2, t2, Exit, 8, ann);
    var k := RowKey("Ann", dayKeyOf(t1));
    assert KeyOf(a, dayKeyOf) == KeyOf(b, dayKeyOf) == Some(k);
    assert Grouped([], dayKeyOf) == [];
    GroupedAppend([], a, dayKeyOf);
    assert [] + [a] == [a];
    assert Grouped([a], dayKeyOf) == [Row(k, "Ann", Some(t1), None)];
    assert Occurs([a], k, dayKeyOf) by { assert [a][0] == a; }
    GroupedAppend([a], b, dayKeyOf);
    assert [a] + [b] == [a, b];
  }
}
