/**
 * The logic of the admin views (app/admin/routes.py) that is not web plumbing: the
 * seven-day attendance series, the date a day view falls back to, and the upload check.
 * The current date is a parameter; the attendance table is a sequence of rows.
 */
module AdminRoutes {
  import opened Wrappers
  import opened Records
  import opened Dates
  import Utils
  import Config

  /** `date_start <= timestamp <= date_end` for the day of `d`. */
  predicate OnDay(row: AttendanceRow, d: Date)
    requires Valid(d)
  {
    DayStart(d) <= row.timestamp <= DayEnd(d)
  }

  /** The attendance rows of one day, in store order. */
  function RowsOn(rows: seq<AttendanceRow>, d: Date): (r: seq<AttendanceRow>)
    requires Valid(d)
    ensures |r| <= |rows|
    ensures forall row :: row in r <==> row in rows && OnDay(row, d)
  {
    if rows == [] then []
    else if OnDay(rows[0], d) then [rows[0]] + RowsOn(rows[1..], d)
    else RowsOn(rows[1..], d)
  }

  /** A day's rows hold each row within the day as often as it is stored, and no other
      row, so the day's count counts equal rows separately. */
  lemma {:induction false} RowsOnCount(rows: seq<AttendanceRow>, d: Date)
    requires Valid(d)
    ensures forall row :: multiset(RowsOn(rows, d))[row] == if OnDay(row, d) then multiset(rows)[row] else 0
  {
    if rows != [] {
      RowsOnCount(rows[1..], d);
      assert rows == [rows[0]] + rows[1..];
    }
  }

  /** No row lies in the windows of two different days. */
  lemma DaysDisjoint(row: AttendanceRow, a: Date, b: Date)
    requires Valid(a) && Valid(b) && a != b
    ensures !(OnDay(row, a) && OnDay(row, b))
  {
    if OnDay(row, a) && OnDay(row, b) {
      OneWindow(Ordinal(a) - 1, Ordinal(b) - 1, row.timestamp);
      OrdinalInjective(a, b);
    }
  }

  /** `api_attendance_weekly` starts its week `timedelta(days=6)` before today. */
  const WeekSpan: nat := 6

  /** The number of days in that week, today included. */
  const WeekLength: nat := WeekSpan + 1

  /** `n` consecutive days starting on `start`. */
  function DaysFrom(start: Date, n: nat): (r: seq<Date>)
    requires Valid(start)
    ensures |r| == n && forall k :: 0 <= k < n ==> Valid(r[k])
    decreases n
  {
    if n == 0 then [] else [start] + DaysFrom(NextDay(start), n - 1)
  }

  /** The ordinal of day `k` of `DaysFrom` is `k` past `start`'s. */
  lemma {:induction false} DaysFromOrdinal(start: Date, n: nat, k: nat)
    requires Valid(start) && k < n
    ensures Ordinal(DaysFrom(start, n)[k]) == Ordinal(start) + k
    decreases k
  {
    if k > 0 {
      DaysFromOrdinal(NextDay(start), n - 1, k - 1);
      assert DaysFrom(start, n)[k] == DaysFrom(NextDay(start), n - 1)[k - 1];
    }
  }

  /** Each day of `DaysFrom` is followed by the next calendar day. */
  lemma {:induction false} DaysFromConsecutive(start: Date, n: nat)
    requires Valid(start)
    ensures n > 0 ==> DaysFrom(start, n)[0] == start
    ensures forall k {:trigger NextDay(DaysFrom(start, n)[k])} :: 0 <= k < n - 1 ==> DaysFrom(start, n)[k + 1] == NextDay(DaysFrom(start, n)[k])
    decreases n
  {
    if n > 1 {
      var rest := DaysFrom(NextDay(start), n - 1);
      DaysFromConsecutive(NextDay(start), n - 1);
      assert DaysFrom(start, n) == [start] + rest;
      assert forall k {:trigger rest[k]} :: 0 <= k < n - 1 ==> DaysFrom(start, n)[k + 1] == rest[k];
    }
  }

  lemma ConsPrefix<T>(x: T, t: seq<T>, m: nat)
    requires 0 < m <= |t| + 1
    ensures ([x] + t)[..m] == [x] + t[..m - 1]
  {
  }

  /** The first days of `DaysFrom` are `DaysFrom` of fewer days. */
  lemma {:induction false} DaysFromPrefix(start: Date, n: nat, m: nat)
    requires Valid(start) && m <= n
    ensures DaysFrom(start, n)[..m] == DaysFrom(start, m)
    decreases m
  {
    if m > 0 {
      var rest := DaysFrom(NextDay(start), n - 1);
      DaysFromPrefix(NextDay(start), n - 1, m - 1);
      assert DaysFrom(start, n) == [start] + rest;
      ConsPrefix(start, rest, m);
    }
  }

  /** The seven days from six days back to `today`. */
  function WeekDates(today: Date): (w: seq<Date>)
    requires Valid(today) && Ordinal(today) > 6
    ensures |w| == 7
  {
    DaysFrom(DaysBack(today, WeekSpan), WeekLength)
  }

  /** The number of days from `start` to `end`, both included; none when `end` comes
      first. */
  function DaysBetween(start: Date, end: Date): (n: nat)
    requires Valid(start) && Valid(end)
    ensures n > 0 <==> Ordinal(start) <= Ordinal(end)
    ensures n > 0 ==> Ordinal(end) == Ordinal(start) + n - 1
  {
    if Ordinal(start) <= Ordinal(end) then Ordinal(end) - Ordinal(start) + 1 else 0
  }

  /** The days a loop `while current_date <= end_date` visits from `start`, followed by the
      day on which its test fails. */
  lemma RangeDates(start: Date, end: Date) returns (days: seq<Date>)
    requires Valid(start) && Valid(end)
    ensures |days| == DaysBetween(start, end) + 1 && days[0] == start
    ensures forall k :: 0 <= k < |days| ==> Valid(days[k])
    ensures forall k {:trigger NextDay(days[k])} :: 0 <= k < |days| - 1 ==> days[k + 1] == NextDay(days[k])
    ensures forall k :: 0 <= k < |days| ==> (Le(days[k], end) <==> k < |days| - 1)
    ensures days[..|days| - 1] == DaysFrom(start, DaysBetween(start, end))
  {
    var n := DaysBetween(start, end);
    days := DaysFrom(start, n + 1);
    DaysFromConsecutive(start, n + 1);
    forall k | 0 <= k < |days|
      ensures Le(days[k], end) <==> k < |days| - 1
    {
      DaysFromOrdinal(start, n + 1, k);
      LeIffOrdinalLe(days[k], end);
    }
    DaysFromPrefix(start, n + 1, n);
  }

  /** The week starts six days back, runs a day at a time and ends on `today`. */
  lemma WeekDatesSpec(today: Date)
    requires Valid(today) && Ordinal(today) > 6
    ensures WeekDates(today)[0] == DaysBack(today, WeekSpan)
    ensures forall k :: 0 <= k < 7 ==> Valid(WeekDates(today)[k])
    ensures forall k {:trigger NextDay(WeekDates(today)[k])} :: 0 <= k < 6 ==> WeekDates(today)[k + 1] == NextDay(WeekDates(today)[k])
    ensures WeekDates(today)[6] == today
  {
    DaysUpTo(today, WeekSpan);
  }

  /** The `span + 1` days from `span` days back run a day at a time up to `end`. */
  lemma DaysUpTo(end: Date, span: nat)
    requires Valid(end) && Ordinal(end) > span
    ensures var days := DaysFrom(DaysBack(end, span), span + 1);
      && days[0] == DaysBack(end, span)
      && (forall k {:trigger NextDay(days[k])} :: 0 <= k < span ==> days[k + 1] == NextDay(days[k]))
      && days[span] == end
  {
    var start := DaysBack(end, span);
    DaysFromOrdinal(start, span + 1, span);
    DaysFromConsecutive(start, span + 1);
    OrdinalInjective(DaysFrom(start, span + 1)[span], end);
  }

  /** One entry of the weekly series: `{'date': 'YYYY-MM-DD', 'count': n}`. */
  datatype DayCount = DayCount(date: string, count: nat)

  /** The series for the given days: each day's date as text and its number of rows. */
  function Entries(records: seq<AttendanceRow>, days: seq<Date>): (r: seq<DayCount>)
    requires forall k :: 0 <= k < |days| ==> Valid(days[k])
    ensures |r| == |days|
  {
    if days == [] then []
    else Entries(records, days[..|days| - 1]) + [DayCount(Format(days[|days| - 1]), |RowsOn(records, days[|days| - 1])|)]
  }

  lemma {:induction false} EntriesAt(records: seq<AttendanceRow>, days: seq<Date>)
    requires forall k :: 0 <= k < |days| ==> Valid(days[k])
    ensures forall k :: 0 <= k < |days| ==> Entries(records, days)[k] == DayCount(Format(days[k]), |RowsOn(records, days[k])|)
  {
    if days != [] {
      EntriesAt(records, days[..|days| - 1]);
    }
  }

  /** Extending the days by one day extends the series by that day's entry. */
  lemma EntriesSnoc(records: seq<AttendanceRow>, days: seq<Date>, i: nat)
    requires i < |days| && forall k :: 0 <= k < |days| ==> Valid(days[k])
    ensures Entries(records, days[..i + 1]) == Entries(records, days[..i]) + [DayCount(Format(days[i]), |RowsOn(records, days[i])|)]
  {
    assert days[..i + 1][..i] == days[..i];
  }

  /** The loop of `api_attendance_weekly`: from `start` to `end` a day at a time, one entry
      per day with the number of rows within it. */
  method CountDays(records: seq<AttendanceRow>, start: Date, end: Date) returns (data: seq<DayCount>)
    requires Valid(start) && Valid(end)
    ensures data == Entries(records, DaysFrom(start, DaysBetween(start, end)))
  {
    data := [];
    var current := start;
    ghost var days := RangeDates(start, end);
    ghost var i: nat := 0;
    while Le(current, end)
      invariant i < |days| && current == days[i]
      invariant data == Entries(records, days[..i])
      decreases |days| - i
    {
      EntriesSnoc(records, days, i);
      var count := |RowsOn(records, current)|;
      data := data + [DayCount(Format(current), count)];
      current := NextDay(current);
      i := i + 1;
    }
  }

  /** `api_attendance_weekly`: seven entries, from six days back to `today`, each with the
      number of attendance rows within that day. */
  method ApiAttendanceWeekly(today: Date, records: seq<AttendanceRow>) returns (data: seq<DayCount>)
    requires Valid(today) && Ordinal(today) > 6
    ensures data == Entries(records, WeekDates(today))
  {
    var endDate := today;
    var startDate := DaysBack(today, WeekSpan);
    data := CountDays(records, startDate, endDate);
  }

  /** The weekly series: seven entries, the `k`-th for the `k`-th day of the week. */
  lemma WeeklySeries(today: Date, records: seq<AttendanceRow>)
    requires Valid(today) && Ordinal(today) > 6
    ensures |Entries(records, WeekDates(today))| == 7
    ensures forall k :: 0 <= k < 7 ==> Entries(records, WeekDates(today))[k] == DayCount(Format(WeekDates(today)[k]), |RowsOn(records, WeekDates(today)[k])|)
  {
    WeekDatesSpec(today);
    EntriesAt(records, WeekDates(today));
  }

  /** The date the `attendance` view shows: the `date` argument when it parses as
      `%Y-%m-%d`, and today's date otherwise, also when the argument is absent. */
  function SelectedDate(arg: Option<string>, today: Date): (d: Date)
    requires Valid(today)
    ensures Valid(d)
    ensures arg.Some? && ParseDate(arg.value).Some? ==> d == ParseDate(arg.value).value
    ensures arg.Some? && ParseDate(arg.value).None? ==> d == today
  {
    var text := if arg.Some? then arg.value else Format(today);
    match ParseDate(text)
    case Some(d) => d
    case None => today
  }

  /** Without an argument the view shows today: the default text reads back as today. */
  lemma SelectedDateDefault(today: Date)
    requires Valid(today) && today.year <= 9999
    ensures SelectedDate(None, today) == today
  {
    FormatParseRoundTrip(today);
  }

  /** Some employee has the row's `employee_id`: the inner join with the employee table
      keeps the row. */
  predicate HasEmployee(row: AttendanceRow, employees: seq<Employee>) {
    exists e :: e in employees && e.id == row.employeeId
  }

  /** The rows the join with the employee table keeps, in store order. */
  function Joined(rows: seq<AttendanceRow>, employees: seq<Employee>): (r: seq<AttendanceRow>)
    ensures |r| <= |rows|
    ensures forall row :: row in r <==> row in rows && HasEmployee(row, employees)
  {
    if rows == [] then []
    else if HasEmployee(rows[0], employees) then [rows[0]] + Joined(rows[1..], employees)
    else Joined(rows[1..], employees)
  }

  /** The rows the `attendance` view lists: those within the selected day whose employee
      still exists. */
  function AttendanceShown(records: seq<AttendanceRow>, employees: seq<Employee>, arg: Option<string>, today: Date)
    : (r: seq<AttendanceRow>)
    requires Valid(today)
    ensures forall row :: row in r <==>
      row in records && HasEmployee(row, employees) && OnDay(row, SelectedDate(arg, today))
  {
    Joined(RowsOn(records, SelectedDate(arg, today)), employees)
  }

  /** The admin `allowed_file`, which reads the configured extensions. */
  function AllowedFile(filename: string): (ok: bool)
    ensures ok == Utils.AllowedFile(filename, Config.AllowedExtensions)
  {
    '.' in filename && Utils.ToLower(Utils.Extension(filename)) in Config.AllowedExtensions
  }

  /** An illustration of `Utils.OnlyLastExtension` on the configured set: upper-case
      extensions pass. */
  lemma UpperCaseAccepted()
    ensures AllowedFile("X.JPG")
  {
    assert "X" + "." + "JPG" == "X.JPG" by {}
    assert Utils.ToLower("JPG") == "jpg" by {}
    Utils.OnlyLastExtension("X", "JPG", Config.AllowedExtensions);
  }

  /** An illustration of `Utils.Extension` on the configured set: only the last extension
      counts, so an allowed one followed by another fails. */
  lemma LastExtensionRejected()
    ensures !AllowedFile("a.png.exe")
  {
    assert Utils.Extension("a.png.exe") == "exe";
  }

  /** A trailing dot or a missing one fails. */
  lemma NoExtensionRejected()
    ensures !AllowedFile("file.")
    ensures !AllowedFile("README")
  {
    Utils.TrailingDot("file", Config.AllowedExtensions);
    assert "file" + "." == "file.";
    Utils.NoDotRejected("README", Config.AllowedExtensions);
  }
}
