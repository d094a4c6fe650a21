/** Record shapes of the stored tables (app/models.py) and the in-memory roster entry. */
module Records {
  import opened Wrappers
  import Dates

  /** A face encoding, the 128-number vector the recognition library produces. */
  type Encoding = seq<real>

  /** The `face_encoding` column: a pickled encoding, or bytes that do not unpickle. */
  datatype Blob = Pickled(encoding: Encoding) | Unreadable

  datatype Employee = Employee(
    id: int,
    name: string,
    faceEncoding: Blob,
    position: string,
    email: string,
    phone: string,
    createdAt: Dates.Timestamp,
    updatedAt: Dates.Timestamp)

  /** A row of the attendance table: who was seen, and when. */
  datatype AttendanceRow = AttendanceRow(employeeId: int, timestamp: Dates.Timestamp)

  /** One entry of the roster the recognizer matches against: `{id, name, encoding}`. */
  datatype Profile = Profile(id: int, name: string, encoding: Encoding)

  datatype Notification = Notification(
    id: int,
    message: string,
    kind: string,
    icon: Option<string>,
    employeeId: Option<int>,
    isRead: bool,
    createdAt: Dates.Timestamp)

  /** SQLite's choice of a new integer primary key: one more than the largest in use. */
  function NextRowId(ids: seq<int>): (r: int)
    ensures r >= 1
    ensures forall i :: 0 <= i < |ids| ==> ids[i] < r
  {
    if ids == [] then 1
    else
      var rest := NextRowId(ids[1..]);
      if ids[0] + 1 > rest then ids[0] + 1 else rest
  }
}
