/** The two scanning endpoints as operations on the store: each reads the
    tables, applies the rule of module Rules and writes its rows. */
module Api {
  import opened Wrappers
  import opened Models
  import opened Queries
  import opened Matcher
  import opened Rules

  /** `api_register_face` (and `api_register_face_upload`, which differs only
      in how the picture arrives). The row is first inserted with the
      placeholder path "temp" and then pointed at the encoding file, named
      after the new id by `encodingPathFor`. */
  method RegisterFace(db: Database, scan: Scan, ops: FaceOps, encodingPathFor: nat -> string, now: Timestamp)
    returns (r: Result<nat, ApiError>)
    requires db.Valid()
    modifies db
    ensures db.Valid()
    ensures Registration(r, db.students) ==
      RegisterFaceOutcome(old(db.students), old(db.lastStudentId), scan, ops, encodingPathFor, now)
    ensures db.lastStudentId == if r.Ok? then r.value else old(db.lastStudentId)
    ensures db.logs == old(db.logs) && db.lastLogId == old(db.lastLogId)
  {
    var face := ReadFace(scan, true);
    if face.Err? {
      return Err(face.error);
    }
    var existing := FindMatchingStudent(ops, face.value, AllStudents(db.students));
    if existing.Some? {
      MatchedRegistration(db.students, db.lastStudentId, scan, ops, encodingPathFor, now, existing.value);
      return Err(AlreadyRegistered(DuplicateName(existing.value)));
    }
    NewRegistration(db.students, db.lastStudentId, scan, ops, encodingPathFor, now);
    ghost var before := db.students;
    var added := db.AddStudent("temp", None, None, None, now);
    var id := added.value;
    var path := encodingPathFor(id);
    db.SetFaceEncodingPath(id, path);
    assert db.students == before + [Student(id, None, None, None, path, now, now)] by {
      forall i | 0 <= i < |before| ensures db.students[i] == before[i] {
        assert before[i] in before;
      }
    }
    r := Ok(id);
  }

  /** `api_check_attendance`: matches the face against every student and
      then opens or closes that student's log for the class and day. */
  method CheckAttendance(db: Database, scan: Scan, className: Option<string>, scanType: Option<string>,
                         ops: FaceOps, today: Day, now: Timestamp, captureStamp: string)
    returns (r: Result<Attendance, ApiError>)
    requires db.Valid()
    modifies db
    ensures db.Valid()
    ensures Step(r, db.logs) ==
      CheckAttendanceOutcome(old(db.students), old(db.logs), old(db.lastLogId), scan, className, scanType,
                             ops, today, now, captureStamp)
    ensures db.lastLogId == if r.Ok? && r.value.CheckIn? then old(db.lastLogId) + 1 else old(db.lastLogId)
    ensures db.students == old(db.students) && db.lastStudentId == old(db.lastStudentId)
    ensures AtMostOneOpen(old(db.logs)) && CivilDay(now) == today ==> AtMostOneOpen(db.logs)
  {
    var face := ReadFace(scan, false);
    if face.Err? {
      return Err(face.error);
    }
    var matched := FindMatchingStudent(ops, face.value, AllStudents(db.students));
    if matched.None? {
      return Err(NotRegistered);
    }
    var student := matched.value;
    var photo := CapturePath(student.id, scanType, captureStamp);
    ghost var before := db.logs;
    MatchedOutcome(db.students, before, db.lastLogId, scan, className, scanType, ops, today, now, captureStamp, student);
    if AtMostOneOpen(before) && CivilDay(now) == today {
      DecideKeepsOneOpen(before, db.lastLogId, student.id, className, scanType, today, now, photo);
    }
    r := Record(db, student.id, className, scanType, today, now, photo);
  }

  /** The check-in / check-out step of `api_check_attendance` for a matched
      student, on the store: it writes exactly the rows `Decide` says. */
  method Record(db: Database, studentDbId: nat, className: Option<string>, scanType: Option<string>,
                today: Day, now: Timestamp, photo: string)
    returns (r: Result<Attendance, ApiError>)
    requires db.Valid()
    modifies db
    ensures db.Valid()
    ensures Step(r, db.logs) == Decide(old(db.logs), old(db.lastLogId), studentDbId, className, scanType, today, now, photo)
    ensures db.lastLogId == if r.Ok? && r.value.CheckIn? then old(db.lastLogId) + 1 else old(db.lastLogId)
    ensures db.students == old(db.students) && db.lastStudentId == old(db.lastStudentId)
  {
    var active := ActiveCheckin(db.logs, studentDbId, className, today);
    if scanType == Some("check_out") {
      if active.None? {
        return Err(NoCheckInToday);
      }
      db.UpdateCheckoutTime(active.value.id, Some(photo), now);
      r := Ok(CheckOut(active.value.id, studentDbId));
    } else {
      if active.Some? {
        return Err(AlreadyCheckedIn);
      }
      var logId := db.AddAttendanceLog(studentDbId, className, Some(photo), now);
      r := Ok(CheckIn(logId, studentDbId));
    }
  }
}
