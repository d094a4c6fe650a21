/**
 * The database service (app/services/db_service.py) over the employee and attendance
 * tables, each held as a sequence of rows in store order. The face library's encodings of
 * an uploaded image, the success of each commit and the clock are parameters.
 */
module DbService {
  import opened Wrappers
  import opened Records
  import Dates

  /** `timedelta(minutes=5)`: the attendance debounce window. */
  const DebounceMicros: int := 5 * Dates.MicrosPerMinute

  predicate UniqueIds(es: seq<Employee>) {
    forall i, j :: 0 <= i < j < |es| ==> es[i].id != es[j].id
  }

  function EmployeeIds(es: seq<Employee>): (r: seq<int>)
    ensures |r| == |es| && forall i :: 0 <= i < |es| ==> r[i] == es[i].id
  {
    if es == [] then [] else [es[0].id] + EmployeeIds(es[1..])
  }

  predicate AllReadable(es: seq<Employee>) {
    forall i :: 0 <= i < |es| ==> es[i].faceEncoding.Pickled?
  }

  /** The profiles `load_employee_encodings` builds: one `{id, name, encoding}` per
      employee in query order, or none at all when some stored encoding does not unpickle
      (the exception aborts the whole load). */
  function Roster(es: seq<Employee>): (r: seq<Profile>)
    ensures !AllReadable(es) ==> r == []
    ensures AllReadable(es) ==>
      && |r| == |es|
      && forall i :: 0 <= i < |es| ==> r[i] == Profile(es[i].id, es[i].name, es[i].faceEncoding.encoding)
  {
    if AllReadable(es) then
      seq(|es|, i requires 0 <= i < |es| && AllReadable(es) => Profile(es[i].id, es[i].name, es[i].faceEncoding.encoding))
    else []
  }

  /** The timestamp of the newest attendance row of `employeeId`, if it has any. */
  function LatestTimestamp(rows: seq<AttendanceRow>, employeeId: int): (r: Option<Dates.Timestamp>)
    ensures r.None? <==> forall i :: 0 <= i < |rows| ==> rows[i].employeeId != employeeId
    ensures r.Some? ==> exists i :: 0 <= i < |rows| && rows[i] == AttendanceRow(employeeId, r.value)
    ensures r.Some? ==> forall i :: 0 <= i < |rows| && rows[i].employeeId == employeeId ==> rows[i].timestamp <= r.value
  {
    if rows == [] then None
    else
      var rest := LatestTimestamp(rows[1..], employeeId);
      assert forall i :: 1 <= i < |rows| ==> rows[i] == rows[1..][i - 1];
      if rows[0].employeeId != employeeId then
        rest
      else if rest.Some? && rest.value > rows[0].timestamp then
        rest
      else
        Some(rows[0].timestamp)
  }

  /** The debounce test of `log_attendance`: a newest entry under five minutes old. */
  predicate RecentlyLogged(rows: seq<AttendanceRow>, employeeId: int, now: Dates.Timestamp) {
    var last := LatestTimestamp(rows, employeeId);
    last.Some? && now - last.value < DebounceMicros
  }

  /** Appending a row of another employee does not change that employee's newest entry. */
  lemma LatestAfterOther(rows: seq<AttendanceRow>, row: AttendanceRow, employeeId: int)
    requires row.employeeId != employeeId
    ensures LatestTimestamp(rows + [row], employeeId) == LatestTimestamp(rows, employeeId)
  {
    var all := rows + [row];
    assert forall i :: 0 <= i < |rows| ==> all[i] == rows[i];
    var a := LatestTimestamp(all, employeeId);
    var b := LatestTimestamp(rows, employeeId);
    if a.Some? {
      var k :| 0 <= k < |all| && all[k] == AttendanceRow(employeeId, a.value);
      assert k < |rows| && rows[k] == all[k];
      assert b.Some? && a.value <= b.value;
    }
    if b.Some? {
      var k :| 0 <= k < |rows| && rows[k] == AttendanceRow(employeeId, b.value);
      assert all[k] == rows[k];
      assert a.Some? && b.value <= a.value;
    }
  }

  /** Appending a row of the employee at a time no earlier than any stored one makes that
      time the newest. */
  lemma LatestAfterOwn(rows: seq<AttendanceRow>, row: AttendanceRow, employeeId: int)
    requires row.employeeId == employeeId
    requires forall i :: 0 <= i < |rows| ==> rows[i].timestamp <= row.timestamp
    ensures LatestTimestamp(rows + [row], employeeId) == Some(row.timestamp)
  {
    var all := rows + [row];
    assert all[|rows|] == row;
    var a := LatestTimestamp(all, employeeId);
    assert a.value >= row.timestamp;
    var k :| 0 <= k < |all| && all[k] == AttendanceRow(employeeId, a.value);
    if k < |rows| {
      assert all[k] == rows[k];
    }
  }

  class DatabaseService {
    var employees: seq<Employee>
    var attendance: seq<AttendanceRow>

    ghost predicate Valid()
      reads this
    {
      UniqueIds(employees)
    }

    constructor (employees: seq<Employee>, attendance: seq<AttendanceRow>)
      requires UniqueIds(employees)
      ensures Valid() && this.employees == employees && this.attendance == attendance
    {
      this.employees := employees;
      this.attendance := attendance;
    }

    /** `load_employee_encodings`: the roster of the stored employees, or the empty list
        when the query fails. */
    method LoadEmployeeEncodings(queryOk: bool) returns (profiles: seq<Profile>)
      ensures profiles == if queryOk then Roster(employees) else []
    {
      if !queryOk {
        return [];
      }
      profiles := [];
      var i := 0;
      while i < |employees|
        invariant 0 <= i <= |employees|
        invariant forall k :: 0 <= k < i ==> employees[k].faceEncoding.Pickled?
        invariant |profiles| == i
        invariant forall k :: 0 <= k < i ==>
          profiles[k] == Profile(employees[k].id, employees[k].name, employees[k].faceEncoding.encoding)
      {
        var emp := employees[i];
        if emp.faceEncoding.Unreadable? {
          return [];
        }
        profiles := profiles + [Profile(emp.id, emp.name, emp.faceEncoding.encoding)];
        i := i + 1;
      }
      assert profiles == Roster(employees);
    }

    /** `add_employee`: `found` is what the face library finds in the image (`None` when
        the image cannot be loaded). Without a face, or when the commit fails, nothing is
        stored and the answer is false; otherwise exactly one employee is appended, with a
        fresh id and the first encoding found. */
    method AddEmployee(name: string, found: Option<seq<Encoding>>, position: string, email: string, phone: string,
                       now: Dates.Timestamp, commitOk: bool) returns (ok: bool)
      requires Valid()
      modifies this
      ensures Valid() && attendance == old(attendance)
      ensures ok == (found.Some? && |found.value| > 0 && commitOk)
      ensures !ok ==> employees == old(employees)
      ensures ok ==> (employees == old(employees) +
        [Employee(NextRowId(EmployeeIds(old(employees))), name, Pickled(found.value[0]), position, email, phone, now, now)])
    {
      if found.None? || |found.value| == 0 {
        return false;
      }
      if !commitOk {
        return false;
      }
      var ids := EmployeeIds(employees);
      var e := Employee(NextRowId(ids), name, Pickled(found.value[0]), position, email, phone, now, now);
      assert forall i :: 0 <= i < |employees| ==> employees[i].id == ids[i] < e.id;
      employees := employees + [e];
      ok := true;
    }

    /** `update_employee_photo`: false, with nothing changed, when no face is found, no
        employee has the id, or the commit fails; otherwise that employee alone gets the
        first encoding found (and, through the column's update hook, a new `updated_at`). */
    method UpdateEmployeePhoto(employeeId: int, found: Option<seq<Encoding>>, now: Dates.Timestamp, commitOk: bool)
      returns (ok: bool)
      requires Valid()
      modifies this
      ensures Valid() && attendance == old(attendance)
      ensures ok == (found.Some? && |found.value| > 0 && commitOk &&
                     exists i :: 0 <= i < |old(employees)| && old(employees)[i].id == employeeId)
      ensures !ok ==> employees == old(employees)
      ensures ok ==>
        && |employees| == |old(employees)|
        && forall i :: 0 <= i < |employees| ==>
             employees[i] == if old(employees)[i].id == employeeId
                             then old(employees)[i].(faceEncoding := Pickled(found.value[0]), updatedAt := now)
                             else old(employees)[i]
    {
      if found.None? || |found.value| == 0 {
        return false;
      }
      var i := 0;
      while i < |employees| && employees[i].id != employeeId
        invariant 0 <= i <= |employees|
        invariant forall k :: 0 <= k < i ==> employees[k].id != employeeId
      {
        i := i + 1;
      }
      if i == |employees| || !commitOk {
        return false;
      }
      employees := employees[i := employees[i].(faceEncoding := Pickled(found.value[0]), updatedAt := now)];
      ok := true;
    }

    /** `log_attendance(employee_id)`: nothing when the newest entry of that employee is
        under five minutes old or the commit fails; otherwise one row `(employee_id, now)`
        is appended. */
    method LogAttendance(employeeId: int, now: Dates.Timestamp, commitOk: bool)
      requires Valid()
      modifies this
      ensures Valid() && employees == old(employees)
      ensures RecentlyLogged(old(attendance), employeeId, now) || !commitOk ==> attendance == old(attendance)
      ensures !RecentlyLogged(old(attendance), employeeId, now) && commitOk ==>
        attendance == old(attendance) + [AttendanceRow(employeeId, now)]
    {
      var last := LatestTimestamp(attendance, employeeId);
      if last.Some? && now - last.value < DebounceMicros {
        return;
      }
      if commitOk {
        attendance := attendance + [AttendanceRow(employeeId, now)];
      }
    }
  }

  /** Logging never disturbs another employee's newest entry, so their debounce verdicts
      are the same afterwards. */
  lemma LogLeavesOthers(rows: seq<AttendanceRow>, employeeId: int, now: Dates.Timestamp, other: int, later: Dates.Timestamp)
    requires other != employeeId
    ensures RecentlyLogged(rows + [AttendanceRow(employeeId, now)], other, later) == RecentlyLogged(rows, other, later)
  {
    LatestAfterOther(rows, AttendanceRow(employeeId, now), other);
  }

  /** With a clock that never goes back, once an entry is logged at `now` every call for
      the same employee in the next five minutes is refused, and one at five minutes or
      later is let through. */
  lemma DebounceWindow(rows: seq<AttendanceRow>, employeeId: int, now: Dates.Timestamp, later: Dates.Timestamp)
    requires forall i :: 0 <= i < |rows| ==> rows[i].timestamp <= now
    requires now <= later
    ensures RecentlyLogged(rows + [AttendanceRow(employeeId, now)], employeeId, later) <==> later < now + DebounceMicros
  {
    LatestAfterOwn(rows, AttendanceRow(employeeId, now), employeeId);
  }
}
