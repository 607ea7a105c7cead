/** The two tables of the attendance store (students and attendance_logs)
    and the statements that write them. The store is a class whose fields
    are the tables' rows in insertion order plus the AUTOINCREMENT counters;
    every clock read is a parameter. */
module Models {
  import opened Wrappers
  import opened Tables

  /** A point in Thai civil time (UTC+7), in seconds since an epoch. The
      tables store it as "%Y-%m-%d %H:%M:%S" text, whose order is this order. */
  type Timestamp = nat

  /** A calendar day of Thai civil time. */
  type Day = nat

  /** SQL `DATE(t)` of a stored timestamp: its civil day. */
  function CivilDay(t: Timestamp): Day
  {
    t / 86400
  }

  /** A row of `students`. Registration stores only the encoding path; the
      administrator fills in the external id and the name later. */
  datatype Student = Student(
    id: nat,
    studentId: Option<string>,
    firstName: Option<string>,
    lastName: Option<string>,
    faceEncodingPath: string,
    createdAt: Timestamp,
    updatedAt: Timestamp)

  datatype Status = CheckedIn | CheckedOut

  /** A row of `attendance_logs`; `studentId` refers to `Student.id`. */
  datatype AttendanceLog = AttendanceLog(
    id: nat,
    studentId: nat,
    className: Option<string>,
    checkInTime: Timestamp,
    checkOutTime: Option<Timestamp>,
    faceImagePath: Option<string>,
    status: Status)

  datatype DbError = StudentIdTaken

  /** SQL `a = b` in a WHERE clause: NULL equals nothing, not even NULL. */
  predicate SqlEq(a: Option<string>, b: Option<string>)
  {
    a.Some? && a == b
  }

  /** Python truthiness of an optional text value (`if path:`). */
  predicate Truthy(o: Option<string>)
  {
    o.Some? && o.value != ""
  }

  predicate DistinctIds(a: Student, b: Student)
  {
    a.id != b.id
  }

  /** The UNIQUE constraint on `students.student_id`: NULLs never clash. */
  predicate DistinctStudentIds(a: Student, b: Student)
  {
    a.studentId.None? || a.studentId != b.studentId
  }

  predicate DistinctLogIds(a: AttendanceLog, b: AttendanceLog)
  {
    a.id != b.id
  }

  /** The status column and the check-out time always agree. */
  predicate WellFormed(l: AttendanceLog)
  {
    l.status == CheckedOut <==> l.checkOutTime.Some?
  }

  /** The row that `add_attendance_log` inserts. */
  function NewLog(id: nat, studentId: nat, className: Option<string>, faceImagePath: Option<string>, now: Timestamp): AttendanceLog
  {
    AttendanceLog(id, studentId, className, now, None, faceImagePath, CheckedIn)
  }

  /** Row `l` after `update_checkout_time`: the image path is overwritten only by a non-empty one. */
  function CheckedOutLog(l: AttendanceLog, now: Timestamp, faceImagePath: Option<string>): AttendanceLog
  {
    l.(checkOutTime := Some(now), status := CheckedOut,
       faceImagePath := if Truthy(faceImagePath) then faceImagePath else l.faceImagePath)
  }

  /** The log table after `update_checkout_time(logId, ...)`. */
  function CloseLog(logs: seq<AttendanceLog>, logId: nat, now: Timestamp, faceImagePath: Option<string>): seq<AttendanceLog>
  {
    seq(|logs|, i requires 0 <= i < |logs| =>
      if logs[i].id == logId then CheckedOutLog(logs[i], now, faceImagePath) else logs[i])
  }

  class Database {
    var students: seq<Student>
    var logs: seq<AttendanceLog>
    /** The AUTOINCREMENT counters: the largest id ever handed out per table. */
    var lastStudentId: nat
    var lastLogId: nat

    ghost predicate Valid()
      reads this
    {
      && (forall s :: s in students ==> 1 <= s.id <= lastStudentId)
      && Pairwise(students, DistinctIds)
      && Pairwise(students, DistinctStudentIds)
      && (forall l :: l in logs ==> 1 <= l.id <= lastLogId && WellFormed(l))
      && Pairwise(logs, DistinctLogIds)
    }

    /** A fresh, empty store. */
    constructor ()
      ensures Valid()
      ensures students == [] && logs == [] && lastStudentId == 0 && lastLogId == 0
    {
      students, logs := [], [];
      lastStudentId, lastLogId := 0, 0;
    }

    /** `add_student`: inserts one row; a student id that is already taken
        violates the UNIQUE constraint and nothing is inserted. */
    method AddStudent(faceEncodingPath: string, studentId: Option<string>, firstName: Option<string>,
                      lastName: Option<string>, now: Timestamp) returns (r: Result<nat, DbError>)
      requires Valid()
      modifies this
      ensures Valid()
      ensures r.Err? <==> studentId.Some? && exists s :: s in old(students) && s.studentId == studentId
      ensures r.Err? ==> students == old(students) && lastStudentId == old(lastStudentId)
      ensures r.Ok? ==>
        && r.value == old(lastStudentId) + 1 == lastStudentId
        && (forall s :: s in old(students) ==> s.id != r.value)
        && students == old(students) + [Student(r.value, studentId, firstName, lastName, faceEncodingPath, now, now)]
      ensures logs == old(logs) && lastLogId == old(lastLogId)
    {
      if studentId.Some? && exists s :: s in students && s.studentId == studentId {
        return Err(StudentIdTaken);
      }
      var id := lastStudentId + 1;
      var row := Student(id, studentId, firstName, lastName, faceEncodingPath, now, now);
      PairwiseAppend(students, row, DistinctIds);
      PairwiseAppend(students, row, DistinctStudentIds);
      students := students + [row];
      lastStudentId := id;
      r := Ok(id);
    }

    /** `update_student`: sets the external id, the name and `updated_at` of
        row `id`. Giving it an external id that another row holds violates the
        UNIQUE constraint and changes nothing; an unknown `id` changes nothing. */
    method UpdateStudent(id: nat, studentId: string, firstName: string, lastName: string, now: Timestamp)
      returns (ok: bool)
      requires Valid()
      modifies this
      ensures Valid()
      ensures ok <==> !((exists s :: s in old(students) && s.id == id) &&
                        (exists s :: s in old(students) && s.id != id && s.studentId == Some(studentId)))
      ensures !ok ==> students == old(students)
      ensures |students| == |old(students)|
      ensures ok ==> forall i :: 0 <= i < |students| ==>
        students[i] == if old(students)[i].id == id
          then old(students)[i].(studentId := Some(studentId), firstName := Some(firstName),
                                 lastName := Some(lastName), updatedAt := now)
          else old(students)[i]
      ensures logs == old(logs) && lastStudentId == old(lastStudentId) && lastLogId == old(lastLogId)
    {
      if (exists s :: s in students && s.id == id) &&
         (exists s :: s in students && s.id != id && s.studentId == Some(studentId)) {
        return false;
      }
      var rows := students;
      var updated := seq(|rows|, i requires 0 <= i < |rows| =>
        if rows[i].id == id
        then rows[i].(studentId := Some(studentId), firstName := Some(firstName),
                      lastName := Some(lastName), updatedAt := now)
        else rows[i]);
      forall i, j | 0 <= i < j < |updated|
        ensures DistinctIds(updated[i], updated[j]) && DistinctStudentIds(updated[i], updated[j])
      {
        assert rows[i] in rows && rows[j] in rows;
        assert DistinctIds(rows[i], rows[j]) && DistinctStudentIds(rows[i], rows[j]);
      }
      forall s | s in updated ensures 1 <= s.id <= lastStudentId {
        var i :| 0 <= i < |updated| && updated[i] == s;
        assert rows[i] in rows;
      }
      students := updated;
      ok := true;
    }

    /** The UPDATE that registration issues once the encoding file is saved:
        points row `id` at that file. */
    method SetFaceEncodingPath(id: nat, path: string)
      requires Valid()
      modifies this
      ensures Valid()
      ensures |students| == |old(students)|
      ensures forall i :: 0 <= i < |students| ==>
        students[i] == if old(students)[i].id == id then old(students)[i].(faceEncodingPath := path)
                       else old(students)[i]
      ensures logs == old(logs) && lastStudentId == old(lastStudentId) && lastLogId == old(lastLogId)
    {
      var rows := students;
      var updated := seq(|rows|, i requires 0 <= i < |rows| =>
        if rows[i].id == id then rows[i].(faceEncodingPath := path) else rows[i]);
      forall i, j | 0 <= i < j < |updated|
        ensures DistinctIds(updated[i], updated[j]) && DistinctStudentIds(updated[i], updated[j])
      {
        assert DistinctIds(rows[i], rows[j]) && DistinctStudentIds(rows[i], rows[j]);
      }
      forall s | s in updated ensures 1 <= s.id <= lastStudentId {
        var i :| 0 <= i < |updated| && updated[i] == s;
        assert rows[i] in rows;
      }
      students := updated;
    }

    /** The WHERE clauses `delete_student` keeps: rows of another student. */
    static function OtherStudent(id: nat): Student -> bool
    {
      (s: Student) => s.id != id
    }

    static function OtherStudentsLog(id: nat): AttendanceLog -> bool
    {
      (l: AttendanceLog) => l.studentId != id
    }

    /** `delete_student`: removes the student's attendance logs, then the
        student row; every other row stays as it was. */
    method DeleteStudent(id: nat)
      requires Valid()
      modifies this
      ensures Valid()
      ensures forall s :: multiset(students)[s] == if s.id != id then multiset(old(students))[s] else 0
      ensures forall l :: multiset(logs)[l] == if l.studentId != id then multiset(old(logs))[l] else 0
      ensures forall s :: s in students <==> s in old(students) && s.id != id
      ensures forall l :: l in logs <==> l in old(logs) && l.studentId != id
      // the remaining rows keep their stored order
      ensures students == Filter(old(students), OtherStudent(id))
      ensures logs == Filter(old(logs), OtherStudentsLog(id))
      ensures lastStudentId == old(lastStudentId) && lastLogId == old(lastLogId)
    {
      var keepLog := OtherStudentsLog(id);
      var keepStudent := OtherStudent(id);
      FilterPairwise(logs, keepLog, DistinctLogIds);
      FilterPairwise(students, keepStudent, DistinctIds);
      FilterPairwise(students, keepStudent, DistinctStudentIds);
      logs := Filter(logs, keepLog);
      students := Filter(students, keepStudent);
    }

    /** `add_attendance_log`: appends one open log stamped with the current
        time and returns its new id. */
    method AddAttendanceLog(studentId: nat, className: Option<string>, faceImagePath: Option<string>, now: Timestamp)
      returns (logId: nat)
      requires Valid()
      modifies this
      ensures Valid()
      ensures logId == old(lastLogId) + 1 == lastLogId
      ensures forall l :: l in old(logs) ==> l.id != logId
      ensures logs == old(logs) + [NewLog(logId, studentId, className, faceImagePath, now)]
      ensures students == old(students) && lastStudentId == old(lastStudentId)
    {
      logId := lastLogId + 1;
      var row := NewLog(logId, studentId, className, faceImagePath, now);
      PairwiseAppend(logs, row, DistinctLogIds);
      logs := logs + [row];
      lastLogId := logId;
    }

    /** `update_checkout_time`: closes log `logId` at the current time. */
    method UpdateCheckoutTime(logId: nat, faceImagePath: Option<string>, now: Timestamp)
      requires Valid()
      modifies this
      ensures Valid()
      ensures logs == CloseLog(old(logs), logId, now, faceImagePath)
      ensures |logs| == |old(logs)|
      ensures forall i :: 0 <= i < |logs| && old(logs)[i].id != logId ==> logs[i] == old(logs)[i]
      ensures forall i :: 0 <= i < |logs| && old(logs)[i].id == logId ==>
        && logs[i].checkOutTime == Some(now) && logs[i].status == CheckedOut
        && logs[i].faceImagePath == (if Truthy(faceImagePath) then faceImagePath else old(logs)[i].faceImagePath)
        && logs[i].(checkOutTime := None, status := CheckedIn, faceImagePath := None)
           == old(logs)[i].(checkOutTime := None, status := CheckedIn, faceImagePath := None)
      ensures students == old(students) && lastStudentId == old(lastStudentId) && lastLogId == old(lastLogId)
    {
      var closed := CloseLog(logs, logId, now, faceImagePath);
      forall i, j | 0 <= i < j < |closed| ensures DistinctLogIds(closed[i], closed[j]) {
        assert DistinctLogIds(logs[i], logs[j]);
      }
      forall l | l in closed ensures 1 <= l.id <= lastLogId && WellFormed(l) {
        var i :| 0 <= i < |closed| && closed[i] == l;
        assert logs[i] in logs;
      }
      logs := closed;
    }
  }
}
