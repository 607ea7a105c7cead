/** The read statements of the attendance store, as functions of the
    tables: every one is a WHERE filter, an ORDER BY ... DESC and possibly a
    LIMIT, and the log listings LEFT JOIN the student row. */
module Queries {
  import opened Wrappers
  import opened Tables
  import opened Models

  function CreatedKey(s: Student): int
  {
    s.createdAt
  }

  function CheckInKey(l: AttendanceLog): int
  {
    l.checkInTime
  }

  /** `get_all_students`: every student, newest `created_at` first. */
  function AllStudents(students: seq<Student>): (r: seq<Student>)
    ensures SortedDesc(r, CreatedKey)
    ensures multiset(r) == multiset(students)
    ensures forall s :: s in r <==> s in students
  {
    var r := SortDesc(students, CreatedKey);
    assert forall s :: s in r <==> s in students by {
      forall s ensures s in r <==> s in students {
        assert s in r <==> s in multiset(r);
      }
    }
    r
  }

  /** The WHERE clause of `get_active_checkin`: an open log of this student
      and class whose check-in falls on `today`. */
  predicate IsActive(l: AttendanceLog, studentId: nat, className: Option<string>, today: Day)
  {
    l.studentId == studentId && SqlEq(l.className, className) &&
    CivilDay(l.checkInTime) == today && l.checkOutTime.None?
  }

  function ActiveFilter(studentId: nat, className: Option<string>, today: Day): AttendanceLog -> bool
  {
    (l: AttendanceLog) => IsActive(l, studentId, className, today)
  }

  /** `get_active_checkin`: the open log of (student, class) checked in
      today with the latest check-in time, if there is one. */
  function ActiveCheckin(logs: seq<AttendanceLog>, studentId: nat, className: Option<string>, today: Day)
    : (r: Option<AttendanceLog>)
    ensures r.None? <==> forall l :: l in logs ==> !IsActive(l, studentId, className, today)
    ensures r.Some? ==> r.value in logs && IsActive(r.value, studentId, className, today)
    ensures r.Some? ==> forall l :: l in logs && IsActive(l, studentId, className, today) ==>
      l.checkInTime <= r.value.checkInTime
  {
    var keep := ActiveFilter(studentId, className, today);
    var page := NewestFirst(logs, keep, CheckInKey, 1);
    NewestOfOne(logs, keep, CheckInKey);
    if page == [] then None else Some(page[0])
  }

  /** A row of the log listings: the log's columns joined with the
      student's external id and name (NULL when no student row matches). */
  datatype LogView = LogView(
    id: nat,
    className: Option<string>,
    checkInTime: Timestamp,
    checkOutTime: Option<Timestamp>,
    faceImagePath: Option<string>,
    status: Status,
    studentId: Option<string>,
    firstName: Option<string>,
    lastName: Option<string>)

  /** The student row with id `id` (ids are a primary key). */
  function StudentById(students: seq<Student>, id: nat): (r: Option<Student>)
    ensures r.Some? ==> r.value in students && r.value.id == id
    ensures r.None? <==> forall s :: s in students ==> s.id != id
  {
    if students == [] then None
    else if students[0].id == id then Some(students[0])
    else StudentById(students[1..], id)
  }

  /** `attendance_logs al LEFT JOIN students s ON al.student_id = s.id`, one row. */
  function Joined(students: seq<Student>, l: AttendanceLog): (v: LogView)
    ensures v.id == l.id && v.className == l.className && v.checkInTime == l.checkInTime
    ensures v.checkOutTime == l.checkOutTime && v.faceImagePath == l.faceImagePath && v.status == l.status
    ensures StudentById(students, l.studentId).None? ==> v.studentId.None? && v.firstName.None? && v.lastName.None?
    ensures var s := StudentById(students, l.studentId);
      s.Some? ==> (s.value in students && s.value.id == l.studentId &&
                   v.studentId == s.value.studentId && v.firstName == s.value.firstName && v.lastName == s.value.lastName)
  {
    var s := StudentById(students, l.studentId);
    LogView(l.id, l.className, l.checkInTime, l.checkOutTime, l.faceImagePath, l.status,
            if s.Some? then s.value.studentId else None,
            if s.Some? then s.value.firstName else None,
            if s.Some? then s.value.lastName else None)
  }

  function JoinAll(students: seq<Student>, page: seq<AttendanceLog>): (r: seq<LogView>)
    ensures |r| == |page|
    ensures forall i :: 0 <= i < |r| ==> r[i] == Joined(students, page[i])
  {
    seq(|page|, i requires 0 <= i < |page| => Joined(students, page[i]))
  }

  /** The WHERE clause of `get_attendance_logs`: none, or the check-in day. */
  function DatedOn(dateFilter: Option<Day>): AttendanceLog -> bool
  {
    (l: AttendanceLog) => dateFilter.None? || CivilDay(l.checkInTime) == dateFilter.value
  }

  /** `get_attendance_logs(limit, date_filter)`: the newest logs first, at
      most `limit` of them (none when it is negative), all checked in on
      `date_filter` when one is given. */
  function AttendanceLogs(students: seq<Student>, logs: seq<AttendanceLog>, limit: int, dateFilter: Option<Day>)
    : (r: seq<LogView>)
    ensures limit >= 0 ==> |r| <= limit
    ensures var n := |Filter(logs, DatedOn(dateFilter))|; |r| == if limit < 0 || limit >= n then n else limit
    ensures forall i, j :: 0 <= i < j < |r| ==> r[j].checkInTime <= r[i].checkInTime
    ensures dateFilter.Some? ==> forall v :: v in r ==> CivilDay(v.checkInTime) == dateFilter.value
    ensures forall v :: v in r ==> exists l :: l in logs && v == Joined(students, l)
    // the rows are the newest `limit` of the matching logs, each at most as often as it is stored
    ensures exists page :: Shows(students, r, page) && NewestOf(page, Filter(logs, DatedOn(dateFilter)))
  {
    var page := NewestFirst(logs, DatedOn(dateFilter), CheckInKey, limit);
    JoinedPage(students, logs, DatedOn(dateFilter), page);
    NewestPage(logs, DatedOn(dateFilter), limit);
    assert Shows(students, JoinAll(students, page), page);
    JoinAll(students, page)
  }

  /** `r` is `page` joined row by row with the students. */
  ghost predicate Shows(students: seq<Student>, r: seq<LogView>, page: seq<AttendanceLog>)
  {
    |page| == |r| && forall i :: 0 <= i < |r| ==> r[i] == Joined(students, page[i])
  }

  /** `page` is a newest-first LIMIT of `matching`: stored rows, each at most
      as often as it is stored, and none cut off is newer than one kept. */
  ghost predicate NewestOf(page: seq<AttendanceLog>, matching: seq<AttendanceLog>)
  {
    && multiset(page) <= multiset(matching)
    && SortedDesc(page, CheckInKey)
    && forall x, i :: x in multiset(matching) - multiset(page) && 0 <= i < |page| ==>
         x.checkInTime <= page[i].checkInTime
  }

  /** The page `NewestFirst` selects is a newest-first LIMIT of the matching logs. */
  lemma NewestPage(logs: seq<AttendanceLog>, keep: AttendanceLog -> bool, limit: int)
    ensures NewestOf(NewestFirst(logs, keep, CheckInKey, limit), Filter(logs, keep))
  {
    var page := NewestFirst(logs, keep, CheckInKey, limit);
    assert forall x, i :: x in multiset(Filter(logs, keep)) - multiset(page) && 0 <= i < |page| ==>
      CheckInKey(x) <= CheckInKey(page[i]);
  }

  /** What the listings inherit from the page of logs they join. */
  lemma JoinedPage(students: seq<Student>, logs: seq<AttendanceLog>, keep: AttendanceLog -> bool,
                   page: seq<AttendanceLog>)
    requires SortedDesc(page, CheckInKey)
    requires forall l :: l in page ==> l in logs && keep(l)
    ensures var r := JoinAll(students, page);
      && (forall i, j :: 0 <= i < j < |r| ==> r[j].checkInTime <= r[i].checkInTime)
      && (forall v :: v in r ==> exists l :: l in logs && keep(l) && v == Joined(students, l) && v.checkInTime == l.checkInTime)
  {
    var r := JoinAll(students, page);
    forall v | v in r ensures exists l :: l in logs && keep(l) && v == Joined(students, l) && v.checkInTime == l.checkInTime {
      var i :| 0 <= i < |r| && r[i] == v;
      assert page[i] in page;
    }
    forall i, j | 0 <= i < j < |r| ensures r[j].checkInTime <= r[i].checkInTime {
      assert CheckInKey(page[j]) <= CheckInKey(page[i]);
    }
  }

  /** The WHERE clause of `get_today_attendance`: checked in today, and in
      the given class when a non-empty one is given. */
  function TodayIn(className: Option<string>, today: Day): AttendanceLog -> bool
  {
    (l: AttendanceLog) => CivilDay(l.checkInTime) == today && (!Truthy(className) || SqlEq(l.className, className))
  }

  /** `get_today_attendance(class_name)`: every log checked in today (in
      the class, when one is given), newest first. */
  function TodayAttendance(students: seq<Student>, logs: seq<AttendanceLog>, className: Option<string>, today: Day)
    : (r: seq<LogView>)
    ensures |r| == |Filter(logs, TodayIn(className, today))|
    ensures forall i, j :: 0 <= i < j < |r| ==> r[j].checkInTime <= r[i].checkInTime
    ensures forall v :: v in r ==> CivilDay(v.checkInTime) == today
    ensures Truthy(className) ==> forall v :: v in r ==> v.className == className
    ensures forall v :: v in r ==> exists l :: l in logs && v == Joined(students, l)
    // every log of today appears exactly as often as it is stored
    ensures exists page :: Shows(students, r, page) && multiset(page) == multiset(Filter(logs, TodayIn(className, today)))
  {
    var page := NewestFirst(logs, TodayIn(className, today), CheckInKey, -1);
    JoinedPage(students, logs, TodayIn(className, today), page);
    assert Shows(students, JoinAll(students, page), page);
    JoinAll(students, page)
  }
}
