# Attendance admin page: combining logs into daily rows

The admin page of the attendance app lists entry and exit logs for employees or interns.
Each log records a timestamp (`created_at`), an action (`entry` or `exit`) and the name of the
joined person. The page does not show one line per log. It groups the logs of the active tab
into one row per joined name and local calendar day, and each row holds that day's entry time and
exit time. It then filters the rows by a case-insensitive name search and by action. This
project models that logic and proves what it does.

- `getDayKey` (module `DayKeys`) renders the local date of a timestamp as
  `year-MM-DD`. The month is `getMonth() + 1` padded to two digits, and the day is
  `getDate()` padded to two digits. `new Date(s)` read in the viewer's time zone is a
  parameter `LocalCalendar`, a function from the timestamp string to a local date. It returns
  `None` for an Invalid Date, whose key is `"NaN-NaN-NaN"`.
- The fold of `getCombinedData` is the method `AdminPage.GroupLogs`. It walks the logs into a
  `RowTable`, a class modelling the JavaScript `Map`: a key order plus a key-to-row map. It
  skips logs without a name, computes the key `name-dayKey`, takes the existing row or a new
  one, overwrites `entry` or `exit` and stores the row. The method is proved equal to
  `Grouping.Grouped`, a closed-form description with three parts:
  - the distinct keys in first-seen order;
  - each row's name, taken from the first log of its key;
  - each field, taken from the last log of that key and action in list order.
- The filter (module `RowFilter`) keeps a row when three conditions hold:
  - the name filter is empty, or the lower-cased name filter occurs in the lower-cased name;
  - the action filter is not `entry`, or the entry is truthy;
  - the action filter is not `exit`, or the exit is truthy.
  `AdminPage.GetCombinedData` chains the fold and the filter for the active tab.

The logs arrive newest first. Because the last write in list order wins, a row therefore keeps
the earliest entry and the earliest exit of the day. The model keeps the rule as written.
`Grouping.NewestFirstKeepsEarliestEntry` shows it on a small example.

Three details of the code matter for the key:
- The key holds the joined name, not the employee or intern id. Two different people with the
  same name share one row on the same day, and one's entry or exit overwrites the other's
  (`Grouping.SameNameMerges`).
- A log whose joined name is the empty string is skipped like one with no person, because
  the code tests `!name`.
- The key is plain string concatenation. A year before year 0 is written with a minus sign,
  so two different people and days can share a key (`Attendance.NegativeYearKeysCollide`).
  For years from 0 on, the key determines the name and the date (`Attendance.RowKeyInjective`).

## Model

| member | source | states |
|---|---|---|
| DayKeys.DayKey | app/admin/page.tsx:89-94 | getDayKey of a timestamp with local date d; the key is "NaN-NaN-NaN" exactly when the date is invalid (format, round trip and injectivity in the rows below) |
| DayKeys.YearText | app/admin/page.tsx:93 | `${getFullYear()}`: for a valid date an integer text that reads back as the year; for an Invalid Date "NaN", which is not one |
| DayKeys.MonthText | app/admin/page.tsx:91 | For a valid date exactly two digits reading getMonth() + 1; for an Invalid Date "NaN", which is not digits |
| DayKeys.DateText | app/admin/page.tsx:92 | For a valid date exactly two digits reading getDate(); for an Invalid Date "NaN", which is not digits |
| DayKeys.DayKeyFormat | app/admin/page.tsx:89-94 | The key of a valid date is the unpadded year, a dash, two digits reading the month 1..12 (getMonth() + 1), a dash, and two digits reading the day 1..31 |
| DayKeys.DayKeyRoundTrip | app/admin/page.tsx:89-94 | Parsing a day key back gives the local date it was made from; the Invalid Date key reads back as no date |
| DayKeys.DayKeyInjective | app/admin/page.tsx:89-94 | Two timestamps get the same day key exactly when they have the same local date |
| DayKeys.DayKeyPartsDashFree | app/admin/page.tsx:93 | For a year from 0 on, none of the year, month and day texts contains a dash |
| Text.NatString | app/admin/page.tsx:91-93 | String() of a non-negative number is a non-empty run of digits with no leading zero, one digit below 10 and at most two below 100 |
| Text.IntString | app/admin/page.tsx:93 | String() of an integer: "0" for zero, digits without a leading zero for a positive number, and a minus sign followed by such digits for a negative number (round trip in Text.IntStringRoundTrip) |
| Text.NatStringRoundTrip | app/admin/page.tsx:91-93 | The digits String() writes read back as the number |
| Text.IntStringRoundTrip | app/admin/page.tsx:93 | String() of the year, with its minus sign for negative years, reads back as the year |
| Text.PadStart | app/admin/page.tsx:91-92 | padStart gives length max(width, length), keeps the string as a suffix and fills the front with the fill character |
| Text.PadTwo | app/admin/page.tsx:91-92 | String(n).padStart(2, '0') for n below 100 is exactly two digits that read back as n |
| Text.LeadingZero | app/admin/page.tsx:91-92 | A leading '0' added by padStart does not change the value of the digits |
| Text.LowerChar | app/admin/page.tsx:120 | An upper-case ASCII letter becomes the same letter in lower case; every other character is unchanged; the result is never upper-case |
| Text.Lower | app/admin/page.tsx:120 | toLowerCase keeps the length and leaves no upper-case ASCII letter; every other character stays |
| Text.LowerIdempotent | app/admin/page.tsx:120 | Lower-casing twice is lower-casing once |
| Text.Includes | app/admin/page.tsx:120 | includes holds exactly when the searched text occurs at some position |
| Text.SplitFourParts | app/admin/page.tsx:107 | A string and three dash-free parts joined with dashes can be split back uniquely |
| Attendance.NameOf | app/admin/page.tsx:101-104 | The joined name, or nothing when `!name` holds (no person or an empty name); its use is stated by Attendance.KeyOf and Grouping.NamedLogs |
| Attendance.RowKey | app/admin/page.tsx:107 | `${name}-${dayKey}`; that it determines name and date for years from 0 on is Attendance.RowKeyInjective, and the counterexample before year 0 is Attendance.NegativeYearKeysCollide |
| Attendance.GetDayKey | app/admin/page.tsx:106 | getDayKey as a function of created_at, given the viewer's calendar; its properties are those of DayKeys.DayKey and Attendance.SameDayKey |
| Attendance.SameDayKey | app/admin/page.tsx:106 | Two timestamps get the same day key exactly when they have the same local date |
| Attendance.KeyOf | app/admin/page.tsx:101-107 | A log gets a key exactly when its joined name is present and non-empty |
| Attendance.RowKeyInjective | app/admin/page.tsx:106-107 | For years from 0 on, equal keys mean equal names and equal local dates |
| Attendance.NegativeYearKeysCollide | app/admin/page.tsx:89-107 | "Ann" on 1 January of year -5 and "Ann-" on 1 January of year 5 share the key "Ann--5-01-01" |
| Grouping.OccursAppend | app/admin/page.tsx:100-107 | Appending a log adds at most its own key to the keys present |
| Grouping.FirstSeen | app/admin/page.tsx:98-119 | The table keys are exactly the keys of the named logs, each listed once |
| Grouping.FirstSeenAppend | app/admin/page.tsx:108-116 | A log appends its key to the key order only when the key is new; otherwise the order is unchanged |
| Grouping.FirstIndex | app/admin/page.tsx:108 | The first log of a key is the one that created its row: it has the key and no earlier log does |
| Grouping.Stamp | app/admin/page.tsx:110-114 | An entry log sets only the entry, an exit log only the exit; key and name stay |
| Grouping.NamedLogs | app/admin/page.tsx:101-104 | A log is kept exactly when it is in the input and has a name; there are no more kept logs than input logs |
| Grouping.LastTime | app/admin/page.tsx:110-114 | The created_at of the last log, in list order, with the given key and action; its meaning is stated by Grouping.LastTimeIsLastWrite, Grouping.LastTimeAbsent and Grouping.LastTimeWritten |
| Grouping.RowFor | app/admin/page.tsx:106-114 | The row of a key: the name of its first log and the last-written entry and exit; Grouping.RowForAppend relates it to one step of the loop |
| Grouping.Grouped | app/admin/page.tsx:98-119 | The closed form of the grouped rows, one per first-seen key; AdminPage.GroupLogs is proved equal to it, and the Grouped* lemmas below state its properties |
| Grouping.LastTimeIsLastWrite | app/admin/page.tsx:110-114 | A field holds the created_at of the last log, in list order, with that key and action |
| Grouping.LastTimeAbsent | app/admin/page.tsx:110-114 | A field is absent exactly when no log with that key and action exists |
| Grouping.LastTimeWritten | app/admin/page.tsx:110-114 | A present field was written by a log with that key and action |
| Grouping.RowForAppend | app/admin/page.tsx:100-117 | One more log leaves other keys' rows alone; for its own key it creates the row with its name, or overwrites only the field of its action |
| Grouping.GroupedAppend | app/admin/page.tsx:100-117 | One more log changes nothing when unnamed; updates its key's row in place when the key was seen; appends a new row otherwise |
| Grouping.GroupedKeys | app/admin/page.tsx:106-116 | Rows have pairwise distinct keys; every row's key comes from a log; every named log's key has a row |
| Grouping.FirstIndexAppend | app/admin/page.tsx:108-116 | Later logs do not change which log first created a row |
| Grouping.FirstSeenOrder | app/admin/page.tsx:98-119 | The key order follows the positions of the keys' first logs |
| Grouping.GroupedOrder | app/admin/page.tsx:98-119 | Rows come out in the order their keys were first seen in the input |
| Grouping.GroupedRowOrigin | app/admin/page.tsx:106-108 | A row's name is the name of its key's first log, and its key is that name, a dash and that log's day key |
| Grouping.GroupedFieldIsLastWrite | app/admin/page.tsx:110-114 | Last write wins: a row's entry or exit is the created_at of the last log of its key with that action |
| Grouping.GroupedFieldWritten | app/admin/page.tsx:110-114 | A row's field is absent exactly when no log of its key has that action; a present field came from such a log |
| Grouping.GroupedRowsHaveTime | app/admin/page.tsx:100-117 | Every row has its entry or its exit set |
| Grouping.GroupedSize | app/admin/page.tsx:100-117 | There are at most as many rows as named logs, and no more named logs than logs |
| Grouping.NamedLogsAgree | app/admin/page.tsx:101-104 | Keys, their order and their rows are the same once the unnamed logs are removed |
| Grouping.GroupedIgnoresOrphans | app/admin/page.tsx:101-104 | The rows of a list equal the rows of its named logs alone |
| Grouping.NamedLogsConcat | app/admin/page.tsx:101-104 | Removing the unnamed logs commutes with concatenating lists |
| Grouping.OrphanSkipped | app/admin/page.tsx:101-104 | A log without a name, wherever it stands, creates no row and changes no row |
| Grouping.RowLogsShareNameAndDay | app/admin/page.tsx:106-108 | Every log grouped into a row has the row's name and the local date of the row's first log |
| Grouping.SameNameMerges | app/admin/page.tsx:101-116 | Two logs of different people with the same name on one day, an entry and an exit, give one row holding both times |
| Grouping.NewestFirstKeepsEarliestEntry | app/admin/page.tsx:100-117 | Newest-first logs entry 12:00, exit 11:00, entry 08:00 of one day give one row with entry 08:00 and exit 11:00 |
| RowTables.RowTable.constructor | app/admin/page.tsx:98 | A new map is empty, with no keys in its order |
| RowTables.RowTable.Get | app/admin/page.tsx:108 | get returns the stored row exactly when the key is present, and nothing otherwise |
| RowTables.RowTable.Set | app/admin/page.tsx:116 | set stores the row under the key; a new key goes to the end of the order and an existing key keeps its place |
| RowTables.RowTable.Values | app/admin/page.tsx:119 | values() lists one row per key, in key insertion order |
| RowFilter.Truthy | app/admin/page.tsx:121-122 | JavaScript truthiness of an optional created_at: present and not empty |
| RowFilter.Keep | app/admin/page.tsx:120-123 | The filter callback's early-return chain; RowFilter.KeepConditions states it as three conditions |
| RowFilter.FilterRows | app/admin/page.tsx:119-124 | The kept rows are an order-preserving subsequence of the rows; a passing row keeps every copy it had and a failing row keeps none |
| RowFilter.KeepConditions | app/admin/page.tsx:120-122 | A row passes exactly when the name filter is empty or the lower-cased name filter occurs in the lower-cased name, and the chosen action's field is truthy |
| RowFilter.KeepIgnoresCase | app/admin/page.tsx:120 | The name search gives the same answer for the lower-cased name and filter |
| RowFilter.FilterAllIsIdentity | app/admin/page.tsx:119-124 | With an empty name filter and 'all', every row is kept, in order |
| AdminPage.ActiveLogs | app/admin/page.tsx:97 | The employee logs on the employee tab and the intern logs on the intern tab; used by AdminPage.GetCombinedData |
| AdminPage.GroupLogs | app/admin/page.tsx:96-117 | The forEach/Map loop produces exactly the closed-form grouped rows, for the getDayKey it is given |
| AdminPage.GetCombinedData | app/admin/page.tsx:96-125 | The result is the grouped rows of the active tab's logs, filtered; with no filters it is the grouped rows; every row has an entry or an exit |

## Left out

- Session checks, sign-out and the log queries (app/admin/page.tsx:35-77) are network calls to the Supabase backend. The model takes the fetched logs as input.
- The query's newest-first ordering and 200-row limit (app/admin/page.tsx:57-58) belong to the backend. The model takes the order of the input list as given.
- Parsing `created_at` with `new Date` and converting it to the viewer's time zone belong to the platform. They are the `LocalCalendar` parameter, which returns a month 0..11 and a day 1..31, or nothing for an Invalid Date.
- formatDate (app/admin/page.tsx:79-87) uses locale formatting for display only and is not modelled.
- React state, effects, routing, the table columns and the rendering are not modelled. The view state getCombinedData reads is the datatype `AdminPage.View`.
- Employee logs and intern logs differ only in the name of the person column (lib/database.types.ts:16-41). Both are the one datatype `Attendance.Log`, and the active tab selects the list.
- Row objects are values. The code mutates the object it got from the map and then sets it back under the same key, so no other reference can observe the mutation.
- Text.Lower: lower-cases the ASCII letters only; the full Unicode case mapping of toLowerCase is not modelled.
- Text.LowerChar: maps the ASCII capitals only and leaves every other character unchanged, where toLowerCase also maps letters such as 'É' to 'é'.
- Strings are sequences of Unicode scalar values, not UTF-16 code units; only text holding a lone surrogate would differ.
- Grouping.RowLogsShareNameAndDay: requires dates from year 0 on, because earlier years break it (see Attendance.NegativeYearKeysCollide).
- Attendance.RowKeyInjective: requires dates from year 0 on, for the same reason.
