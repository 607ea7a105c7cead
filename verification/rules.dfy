/** The decisions of the two scanning endpoints, as functions of the tables:
    face registration refuses a face that is already enrolled, and the
    attendance check opens or closes a log for (student, class, today). */
module Rules {
  import opened Wrappers
  import opened Text
  import opened Models
  import opened Queries
  import opened Matcher

  /** What the image pipeline makes of a submitted picture: it does not
      decode, or it shows `faceCount` faces and yields an encoding (or none). */
  datatype Scan = Undecodable | Decoded(faceCount: nat, encoding: Option<Encoding>)

  datatype ApiError =
    | InvalidImage
    | NoFaceFound
    | MultipleFaces
    | EncodingFailed
    | AlreadyRegistered(name: string)
    | NotRegistered
    | NoCheckInToday
    | AlreadyCheckedIn

  datatype Attendance = CheckIn(logId: nat, studentDbId: nat) | CheckOut(logId: nat, studentDbId: nat)

  /** The checks both endpoints make before matching; registration also
      refuses a picture with more than one face. */
  function ReadFace(scan: Scan, singleFace: bool): (r: Result<Encoding, ApiError>)
    ensures r.Ok? <==> scan.Decoded? && scan.faceCount >= 1 && (!singleFace || scan.faceCount == 1) && scan.encoding.Some?
    ensures r.Ok? ==> r.value == scan.encoding.value
    ensures scan.Undecodable? ==> r == Err(InvalidImage)
    ensures scan.Decoded? && scan.faceCount == 0 ==> r == Err(NoFaceFound)
    ensures r == Err(MultipleFaces) <==> singleFace && scan.Decoded? && scan.faceCount > 1
    ensures scan.Decoded? && scan.faceCount >= 1 && (!singleFace || scan.faceCount == 1) && scan.encoding.None? ==>
      r == Err(EncodingFailed)
  {
    match scan
    case Undecodable => Err(InvalidImage)
    case Decoded(n, e) =>
      if n == 0 then Err(NoFaceFound)
      else if singleFace && n > 1 then Err(MultipleFaces)
      else if e.None? then Err(EncodingFailed)
      else Ok(e.value)
  }

  function OrEmpty(o: Option<string>): string
  {
    if o.Some? then o.value else ""
  }

  /** The name in the "already registered" message as the handler writes it:
      a missing name part is rendered by the f-string as "None". */
  function DuplicateNameAsWritten(s: Student): (name: string)
    ensures AllSpace(PyStr(s.firstName)) && AllSpace(PyStr(s.lastName)) ==> name == "ID: " + NatStr(s.id)
    // a NULL name part is never blank, so the id fallback cannot fire
    ensures !(AllSpace(PyStr(s.firstName)) && AllSpace(PyStr(s.lastName))) ==>
      name == Strip(PyStr(s.firstName) + " " + PyStr(s.lastName)) != []
    ensures s.firstName.None? || s.lastName.None? ==>
      name == Strip(PyStr(s.firstName) + " " + PyStr(s.lastName)) != []
  {
    var first, last := PyStr(s.firstName), PyStr(s.lastName);
    AllSpaceConcat(first, " ");
    AllSpaceConcat(first + " ", last);
    assert AllSpace(" ") by { assert forall c :: c in " " ==> c == ' '; }
    assert !AllSpace("None") by { assert !IsSpace("None"[0]); }
    var name := Strip(first + " " + last);
    if name == "" then "ID: " + NatStr(s.id) else name
  }

  /** The name in the "already registered" message: the full name, or
      "ID: <id>" when the student has no name yet. */
  function DuplicateName(s: Student): (name: string)
    ensures name != []
  {
    var full := Strip(OrEmpty(s.firstName) + " " + OrEmpty(s.lastName));
    if full == "" then "ID: " + NatStr(s.id) else full
  }

  /** A student registered but not yet named is shown as "None None" by the
      handler as written, and by its id once missing parts count as empty. */
  lemma UnnamedStudentShownAsNone(s: Student)
    requires s.firstName.None? && s.lastName.None?
    ensures DuplicateNameAsWritten(s) == "None None"
    ensures DuplicateName(s) == "ID: " + NatStr(s.id)
  {
    var t := PyStr(s.firstName) + " " + PyStr(s.lastName);
    assert t == "None None";
    assert !IsSpace(t[0]) && !IsSpace(t[|t| - 1]);
    var u := OrEmpty(s.firstName) + " " + OrEmpty(s.lastName);
    assert u == " ";
    assert AllSpace(u);
  }

  /** The message falls back to the id exactly when both name parts are
      missing or blank; otherwise it shows the trimmed full name. */
  lemma DuplicateNameFallback(s: Student)
    ensures AllSpace(OrEmpty(s.firstName)) && AllSpace(OrEmpty(s.lastName)) ==>
      DuplicateName(s) == "ID: " + NatStr(s.id)
    ensures !(AllSpace(OrEmpty(s.firstName)) && AllSpace(OrEmpty(s.lastName))) ==>
      DuplicateName(s) == Strip(OrEmpty(s.firstName) + " " + OrEmpty(s.lastName)) != []
  {
    var first, last := OrEmpty(s.firstName), OrEmpty(s.lastName);
    AllSpaceConcat(first, " ");
    AllSpaceConcat(first + " ", last);
    assert AllSpace(" ") by { assert forall c :: c in " " ==> c == ' '; }
  }

  /** The scan over every student, newest first: nothing iff no student
      matches, and otherwise a matching student that is first among the
      closest in that order. */
  lemma MatchAmong(ops: FaceOps, encoding: Encoding, students: seq<Student>)
    ensures var best := BestMatch(ops, encoding, AllStudents(students));
      && (best.None? <==> forall s :: s in students ==> !IsMatch(ops, encoding, s))
      && (best.Some? ==> best.value in students && IsMatch(ops, encoding, best.value))
      && (best.Some? ==> exists k :: FirstClosest(ops, encoding, AllStudents(students), k) &&
                                     AllStudents(students)[k] == best.value)
  {
    var all := AllStudents(students);
    BestMatchIsFirstClosest(ops, encoding, all);
    if s :| s in students && IsMatch(ops, encoding, s) {
      assert s in all;
      var j :| 0 <= j < |all| && all[j] == s;
    }
  }

  datatype Registration = Registration(result: Result<nat, ApiError>, students: seq<Student>)

  /** `api_register_face` (and its upload twin): after the picture checks,
      a face that matches an enrolled student is refused and names that
      student (by the corrected `DuplicateName`); otherwise one unnamed
      student row is added, pointing at the file the encoding is saved to. */
  function RegisterFaceOutcome(students: seq<Student>, lastStudentId: nat, scan: Scan, ops: FaceOps,
                               encodingPathFor: nat -> string, now: Timestamp): (o: Registration)
    ensures o.result.Err? ==> o.students == students
    ensures ReadFace(scan, true).Err? ==> o.result == Err(ReadFace(scan, true).error)
    ensures ReadFace(scan, true).Ok? ==>
      (o.result.Err? <==> exists s :: s in students && IsMatch(ops, ReadFace(scan, true).value, s))
    // the message names the closest match, the first of equally close ones in `created_at DESC` order
    ensures ReadFace(scan, true).Ok? && o.result.Err? ==>
      && o.result.error.AlreadyRegistered?
      && exists k :: FirstClosest(ops, ReadFace(scan, true).value, AllStudents(students), k) &&
           o.result.error.name == DuplicateName(AllStudents(students)[k])
    ensures o.result.Ok? ==>
      var id := lastStudentId + 1;
      o.result.value == id && o.students == students + [Student(id, None, None, None, encodingPathFor(id), now, now)]
  {
    match ReadFace(scan, true)
    case Err(e) => Registration(Err(e), students)
    case Ok(encoding) =>
      var all := AllStudents(students);
      MatchAmong(ops, encoding, students);
      match BestMatch(ops, encoding, all)
      case Some(existing) => Registration(Err(AlreadyRegistered(DuplicateName(existing))), students)
      case None =>
        var id := lastStudentId + 1;
        Registration(Ok(id), students + [Student(id, None, None, None, encodingPathFor(id), now, now)])
  }

  /** Once the face is read and matches `existing` first, registration is
      refused and names that student. */
  lemma MatchedRegistration(students: seq<Student>, lastStudentId: nat, scan: Scan, ops: FaceOps,
                            encodingPathFor: nat -> string, now: Timestamp, existing: Student)
    requires ReadFace(scan, true).Ok?
    requires BestMatch(ops, ReadFace(scan, true).value, AllStudents(students)) == Some(existing)
    ensures RegisterFaceOutcome(students, lastStudentId, scan, ops, encodingPathFor, now)
      == Registration(Err(AlreadyRegistered(DuplicateName(existing))), students)
  {
  }

  /** Once the face is read and matches nobody, registration adds the
      unnamed row under the next id. */
  lemma NewRegistration(students: seq<Student>, lastStudentId: nat, scan: Scan, ops: FaceOps,
                        encodingPathFor: nat -> string, now: Timestamp)
    requires ReadFace(scan, true).Ok?
    requires BestMatch(ops, ReadFace(scan, true).value, AllStudents(students)).None?
    ensures var id := lastStudentId + 1;
      RegisterFaceOutcome(students, lastStudentId, scan, ops, encodingPathFor, now)
        == Registration(Ok(id), students + [Student(id, None, None, None, encodingPathFor(id), now, now)])
  {
  }

  /** The path `save_face_capture` returns for the picture of a scan. */
  function CapturePath(studentDbId: nat, scanType: Option<string>, stamp: string): (path: string)
    ensures Truthy(Some(path))
  {
    "/static/captures/capture_" + NatStr(studentDbId) + "_" + PyStr(scanType) + "_" + stamp + ".jpg"
  }

  datatype Step = Step(result: Result<Attendance, ApiError>, logs: seq<AttendanceLog>)

  /** The check-in / check-out rule for a matched student. A check-out closes
      the active check-in of today and is refused without one; anything else
      is a check-in, refused while an active check-in of today exists.
      The ensures spell out this case table over `ActiveCheckin`, which is
      specified on its own; what the rule guarantees over time is stated by
      the lemmas below (`DecideKeepsOneOpen`, `SecondCheckInRefused`,
      `CheckOutClosesCheckIn`, `ReentryAfterCheckOut`). */
  function Decide(logs: seq<AttendanceLog>, lastLogId: nat, studentDbId: nat, className: Option<string>,
                  scanType: Option<string>, today: Day, now: Timestamp, photo: string): (st: Step)
    ensures st.result.Err? ==> st.logs == logs
    ensures var active := ActiveCheckin(logs, studentDbId, className, today);
      if scanType == Some("check_out") then
        if active.None? then st.result == Err(NoCheckInToday)
        else st.result == Ok(CheckOut(active.value.id, studentDbId)) &&
             st.logs == CloseLog(logs, active.value.id, now, Some(photo))
      else
        if active.Some? then st.result == Err(AlreadyCheckedIn)
        else st.result == Ok(CheckIn(lastLogId + 1, studentDbId)) &&
             st.logs == logs + [NewLog(lastLogId + 1, studentDbId, className, Some(photo), now)]
  {
    var active := ActiveCheckin(logs, studentDbId, className, today);
    if scanType == Some("check_out") then
      if active.None? then Step(Err(NoCheckInToday), logs)
      else Step(Ok(CheckOut(active.value.id, studentDbId)), CloseLog(logs, active.value.id, now, Some(photo)))
    else
      if active.Some? then Step(Err(AlreadyCheckedIn), logs)
      else Step(Ok(CheckIn(lastLogId + 1, studentDbId)),
                logs + [NewLog(lastLogId + 1, studentDbId, className, Some(photo), now)])
  }

  /** `api_check_attendance`: the picture checks (several faces are
      accepted here), the match against every student, then the rule. */
  function CheckAttendanceOutcome(students: seq<Student>, logs: seq<AttendanceLog>, lastLogId: nat, scan: Scan,
                                  className: Option<string>, scanType: Option<string>, ops: FaceOps,
                                  today: Day, now: Timestamp, captureStamp: string): (st: Step)
    ensures st.result.Err? ==> st.logs == logs
    ensures ReadFace(scan, false).Err? ==> st.result == Err(ReadFace(scan, false).error)
    ensures ReadFace(scan, false).Ok? ==>
      (st.result == Err(NotRegistered) <==> forall s :: s in students ==> !IsMatch(ops, ReadFace(scan, false).value, s))
    ensures st.result.Ok? ==>
      exists s :: s in students && IsMatch(ops, ReadFace(scan, false).value, s) && st.result.value.studentDbId == s.id
    // a recognised face is the closest match in `created_at DESC` order, and the rule `Decide` applies to it
    ensures ReadFace(scan, false).Ok? && st.result != Err(NotRegistered) ==>
      exists k :: FirstClosest(ops, ReadFace(scan, false).value, AllStudents(students), k) &&
        var id := AllStudents(students)[k].id;
        st == Decide(logs, lastLogId, id, className, scanType, today, now, CapturePath(id, scanType, captureStamp))
  {
    match ReadFace(scan, false)
    case Err(e) => Step(Err(e), logs)
    case Ok(encoding) =>
      var all := AllStudents(students);
      MatchAmong(ops, encoding, students);
      match BestMatch(ops, encoding, all)
      case None => Step(Err(NotRegistered), logs)
      case Some(student) =>
        Decide(logs, lastLogId, student.id, className, scanType, today, now,
               CapturePath(student.id, scanType, captureStamp))
  }

  /** Once the face is read and matched to `student`, the attendance check
      is the rule `Decide` for that student. */
  lemma MatchedOutcome(students: seq<Student>, logs: seq<AttendanceLog>, lastLogId: nat, scan: Scan,
                       className: Option<string>, scanType: Option<string>, ops: FaceOps,
                       today: Day, now: Timestamp, captureStamp: string, student: Student)
    requires ReadFace(scan, false).Ok?
    requires BestMatch(ops, ReadFace(scan, false).value, AllStudents(students)) == Some(student)
    ensures CheckAttendanceOutcome(students, logs, lastLogId, scan, className, scanType, ops, today, now, captureStamp)
      == Decide(logs, lastLogId, student.id, className, scanType, today, now, CapturePath(student.id, scanType, captureStamp))
  {
  }

  /** Two open logs of one student, for one (non-NULL) class, checked in on
      the same day. */
  predicate OpenTwice(a: AttendanceLog, b: AttendanceLog)
  {
    a.checkOutTime.None? && b.checkOutTime.None? && a.studentId == b.studentId &&
    SqlEq(a.className, b.className) && CivilDay(a.checkInTime) == CivilDay(b.checkInTime)
  }

  /** At most one open log per (student, non-NULL class, day): open logs
      with a NULL class never clash, since `=` with NULL never holds. */
  ghost predicate AtMostOneOpen(logs: seq<AttendanceLog>)
  {
    forall i, j :: 0 <= i < j < |logs| ==> !OpenTwice(logs[i], logs[j])
  }

  /** The rule keeps at most one open log per (student, non-NULL class, day), as long
      as the check-in time falls on the day the rule looked at. */
  lemma DecideKeepsOneOpen(logs: seq<AttendanceLog>, lastLogId: nat, studentDbId: nat, className: Option<string>,
                           scanType: Option<string>, today: Day, now: Timestamp, photo: string)
    requires AtMostOneOpen(logs)
    requires CivilDay(now) == today
    ensures AtMostOneOpen(Decide(logs, lastLogId, studentDbId, className, scanType, today, now, photo).logs)
  {
    var st := Decide(logs, lastLogId, studentDbId, className, scanType, today, now, photo);
    var active := ActiveCheckin(logs, studentDbId, className, today);
    if st.result.Ok? && st.result.value.CheckIn? {
      var newLog := NewLog(lastLogId + 1, studentDbId, className, Some(photo), now);
      forall i, j | 0 <= i < j < |st.logs| ensures !OpenTwice(st.logs[i], st.logs[j]) {
        if j == |logs| {
          assert logs[i] in logs;
          assert !IsActive(logs[i], studentDbId, className, today);
        }
      }
    } else if st.result.Ok? {
      forall i, j | 0 <= i < j < |st.logs| ensures !OpenTwice(st.logs[i], st.logs[j]) {
        assert !OpenTwice(logs[i], logs[j]);
      }
    }
  }

  /** The NULL class of a request that sends `class_name` as null equals no stored
      class: such a check-in is never refused and such a check-out always is. */
  lemma NullClassNeverActive(logs: seq<AttendanceLog>, lastLogId: nat, studentDbId: nat,
                             scanType: Option<string>, today: Day, now: Timestamp, photo: string)
    ensures var st := Decide(logs, lastLogId, studentDbId, None, scanType, today, now, photo);
      st.result.Ok? <==> scanType != Some("check_out")
  {
    assert forall l :: l in logs ==> !IsActive(l, studentDbId, None, today);
  }

  /** Without a class, repeated check-ins on one day are all accepted and
      pile up open logs of the same student, NULL class and day, none of
      which a check-out can ever close. */
  lemma NullClassPilesUp(logs: seq<AttendanceLog>, lastLogId: nat, studentDbId: nat, today: Day,
                         now1: Timestamp, now2: Timestamp, photo1: string, photo2: string)
    requires CivilDay(now1) == today && CivilDay(now2) == today
    ensures var st := Decide(logs, lastLogId, studentDbId, None, None, today, now1, photo1);
      var st2 := Decide(st.logs, lastLogId + 1, studentDbId, None, None, today, now2, photo2);
      && st.result == Ok(CheckIn(lastLogId + 1, studentDbId))
      && st2.result == Ok(CheckIn(lastLogId + 2, studentDbId))
      && Decide(st2.logs, lastLogId + 2, studentDbId, None, Some("check_out"), today, now2, photo2).result == Err(NoCheckInToday)
      && |st2.logs| == |logs| + 2
      && (var a, b := st2.logs[|logs|], st2.logs[|logs| + 1];
          && a.checkOutTime.None? && b.checkOutTime.None? && a.studentId == b.studentId == studentDbId
          && a.className == b.className == None && CivilDay(a.checkInTime) == CivilDay(b.checkInTime) == today)
  {
    var st := Decide(logs, lastLogId, studentDbId, None, None, today, now1, photo1);
    NullClassNeverActive(logs, lastLogId, studentDbId, None, today, now1, photo1);
    NullClassNeverActive(st.logs, lastLogId + 1, studentDbId, None, today, now2, photo2);
    var st2 := Decide(st.logs, lastLogId + 1, studentDbId, None, None, today, now2, photo2);
    NullClassNeverActive(st2.logs, lastLogId + 2, studentDbId, Some("check_out"), today, now2, photo2);
  }

  /** Check-in then check-in on the same day: the second is refused. */
  lemma SecondCheckInRefused(logs: seq<AttendanceLog>, lastLogId: nat, studentDbId: nat, className: Option<string>,
                             scan1: Option<string>, scan2: Option<string>, today: Day,
                             now1: Timestamp, now2: Timestamp, photo1: string, photo2: string)
    requires className.Some? && CivilDay(now1) == today
    requires scan1 != Some("check_out") && scan2 != Some("check_out")
    requires Decide(logs, lastLogId, studentDbId, className, scan1, today, now1, photo1).result.Ok?
    ensures var st := Decide(logs, lastLogId, studentDbId, className, scan1, today, now1, photo1);
      Decide(st.logs, lastLogId + 1, studentDbId, className, scan2, today, now2, photo2).result == Err(AlreadyCheckedIn)
  {
    var st := Decide(logs, lastLogId, studentDbId, className, scan1, today, now1, photo1);
    var newLog := NewLog(lastLogId + 1, studentDbId, className, Some(photo1), now1);
    assert newLog == st.logs[|logs|] && newLog in st.logs;
    assert IsActive(newLog, studentDbId, className, today);
  }

  /** Closing a log that was appended last, under an id no earlier row has,
      changes that row only. */
  lemma CloseLast(logs: seq<AttendanceLog>, last: AttendanceLog, now: Timestamp, faceImagePath: Option<string>)
    requires forall l :: l in logs ==> l.id != last.id
    ensures CloseLog(logs + [last], last.id, now, faceImagePath) == logs + [CheckedOutLog(last, now, faceImagePath)]
  {
    var closed := CloseLog(logs + [last], last.id, now, faceImagePath);
    forall i | 0 <= i < |logs| ensures closed[i] == logs[i] {
      assert logs[i] in logs;
    }
  }

  /** Check-in then check-out on the same day: the check-out closes exactly
      the log the check-in opened. */
  lemma CheckOutClosesCheckIn(logs: seq<AttendanceLog>, lastLogId: nat, studentDbId: nat, className: Option<string>,
                              scan1: Option<string>, today: Day, now1: Timestamp, now2: Timestamp,
                              photo1: string, photo2: string)
    requires forall l :: l in logs ==> l.id <= lastLogId
    requires className.Some? && CivilDay(now1) == today
    requires scan1 != Some("check_out")
    requires Decide(logs, lastLogId, studentDbId, className, scan1, today, now1, photo1).result.Ok?
    ensures var st := Decide(logs, lastLogId, studentDbId, className, scan1, today, now1, photo1);
      var st2 := Decide(st.logs, lastLogId + 1, studentDbId, className, Some("check_out"), today, now2, photo2);
      && st.result == Ok(CheckIn(lastLogId + 1, studentDbId))
      && st2.result == Ok(CheckOut(lastLogId + 1, studentDbId))
      && st2.logs == logs + [CheckedOutLog(NewLog(lastLogId + 1, studentDbId, className, Some(photo1), now1), now2, Some(photo2))]
  {
    var newLog := NewLog(lastLogId + 1, studentDbId, className, Some(photo1), now1);
    var afterIn := logs + [newLog];
    assert newLog in afterIn;
    var active := ActiveCheckin(afterIn, studentDbId, className, today);
    assert active == Some(newLog) by {
      assert IsActive(newLog, studentDbId, className, today);
      assert active.value !in logs;
    }
    CloseLast(logs, newLog, now2, Some(photo2));
  }

  /** After check-in then check-out on one day nothing is open for that
      (student, class, day): another check-in is accepted under the next id,
      and another check-out is refused. */
  lemma ReentryAfterCheckOut(logs: seq<AttendanceLog>, lastLogId: nat, studentDbId: nat, className: Option<string>,
                             scan1: Option<string>, scan3: Option<string>, today: Day,
                             now1: Timestamp, now2: Timestamp, now3: Timestamp,
                             photo1: string, photo2: string, photo3: string)
    requires forall l :: l in logs ==> l.id <= lastLogId
    requires className.Some? && CivilDay(now1) == today
    requires scan1 != Some("check_out")
    requires Decide(logs, lastLogId, studentDbId, className, scan1, today, now1, photo1).result.Ok?
    ensures var st := Decide(logs, lastLogId, studentDbId, className, scan1, today, now1, photo1);
      var st2 := Decide(st.logs, lastLogId + 1, studentDbId, className, Some("check_out"), today, now2, photo2);
      var st3 := Decide(st2.logs, lastLogId + 1, studentDbId, className, scan3, today, now3, photo3);
      st3.result == if scan3 == Some("check_out") then Err(NoCheckInToday) else Ok(CheckIn(lastLogId + 2, studentDbId))
  {
    CheckOutClosesCheckIn(logs, lastLogId, studentDbId, className, scan1, today, now1, now2, photo1, photo2);
    var closed := CheckedOutLog(NewLog(lastLogId + 1, studentDbId, className, Some(photo1), now1), now2, Some(photo2));
    var afterOut := logs + [closed];
    forall l | l in afterOut ensures !IsActive(l, studentDbId, className, today) {
      if l != closed {
        assert l in logs;
      }
    }
  }
}
