# Face-scan attendance: a verified model of its bookkeeping

The system registers students by the face a webcam sees and then records
class attendance by face. Each attendance scan is either a check-in or a
check-out. This project models the logic that sits between the face library
and SQLite:

- **Face matching** (`find_matching_student`). This is a linear scan over the
  enrolled students that keeps the closest one the face library calls a match.
  It skips any student whose stored encoding cannot be loaded. The model also
  covers the strip of the `data:...;base64,` header from a submitted picture.
- **The store**. There are two tables, `students` and `attendance_logs`, with
  their inserts, updates, cascade delete and queries. The store is a class
  `Models.Database` whose sequence fields the methods reassign. The queries
  are functions of those fields.
- **The two scanning endpoints**. Registration refuses a face that is already
  enrolled; otherwise it adds an unnamed student. The attendance check opens a
  log for (student, class, today), or closes the open one.

The face library is abstract. `Matcher.FaceOps` holds two functions: one loads
a student's stored encoding, which may fail, and one compares two encodings,
giving "is a match" and a distance. What the image pipeline makes of a picture
is the value `Rules.Scan`. Clock reads are parameters:

- `now`: a timestamp in seconds of Thai civil time.
- `today`: a `Day`.
- `captureStamp`: the text stamp in a capture file name.

SQL `DATE()` is `Models.CivilDay`, i.e. `now / 86400`. A SQL NULL is `None`,
and an `=` comparison with NULL never holds (`Models.SqlEq`). So a request that sends a null class never finds an active check-in: its check-ins pile up as open logs and its check-outs are always refused, and the "one open log per (student, class, day)" rule holds only for non-NULL classes.

Modules, one file each:

| file | module | contents |
|---|---|---|
| `wrappers.dfy` | `Wrappers` | `Option`, `Result` |
| `tables.dfy` | `Tables` | WHERE (`Filter`), ORDER BY ... DESC (`SortDesc`), LIMIT (`Take`) over sequences |
| `text.dfy` | `Text` | Python `str.strip`, `str.split` and decimal rendering |
| `models.dfy` | `Models` | the rows and the `Database` class |
| `queries.dfy` | `Queries` | the read statements |
| `matcher.dfy` | `Matcher` | `find_matching_student` and the header strip |
| `rules.dfy` | `Rules` | the endpoints' decisions as functions, with their lemmas |
| `api.dfy` | `Api` | the endpoints as methods on the store |

## Model

| member | source | states |
|---|---|---|
| Matcher.FindMatchingStudent | face_recognition_service.py:132-162 | The loop returns `BestMatch` of the list. It returns None exactly when no student both loads and matches. Otherwise the result is the first student at the smallest distance among the students that load and match. |
| Matcher.BestMatch | face_recognition_service.py:144-162 | A non-None result is an element of the list whose encoding loads and which is a match. |
| Matcher.BestMatchIsFirstClosest | face_recognition_service.py:147-160 | None iff no student loads and matches. Otherwise the result is the student at some index `k` that matches, has a distance no greater than every matching student's, and is strictly closer than every matching student before `k` (the strict `<` tie-break). |
| Matcher.FirstClosestDeterminesMatch | face_recognition_service.py:158-159 | Being first among the closest determines the result: if index `k` is first-closest, `BestMatch` returns `students[k]`. |
| Matcher.NonMatchIgnored | face_recognition_service.py:151-152 | Inserting a student that does not load, or does not match, anywhere in the list leaves the result unchanged. |
| Matcher.StripDataUrlHeader | face_recognition_service.py:178-179 | Without a comma the string is unchanged. With a comma, the result is the text between the first comma and the next comma (or the end), and it contains no comma. |
| Matcher.DataUrlRoundTrip | main.py:284-285 | For a comma-free header and payload, stripping `header + "," + payload` gives back the payload. |
| Text.Strip | main.py:175 | The result is the input with a whitespace prefix and a whitespace suffix removed (a slice `s[a..b]` with `s[..a]` and `s[b..]` all whitespace). It is empty iff the input is all whitespace, it has no whitespace at either end, and an already-stripped string is unchanged. |
| Text.Split | face_recognition_service.py:179 | At least one part. No part contains the separator. There is one part iff the separator does not occur, and the first part is the text before its first occurrence. |
| Text.JoinSplit | face_recognition_service.py:179 | Joining the parts with the separator gives the input back. |
| Text.SplitJoin | face_recognition_service.py:179 | Splitting a join of separator-free parts gives back the parts. |
| Tables.NewestFirst | database/models.py:226-231 | A filter, a descending sort and a LIMIT. The result has exactly `min(limit, matches)` rows, or every matching row when `limit` is negative. Its rows are sorted descending, every row is a stored row that passes the filter, and every row cut off sorts no higher than every row kept. |
| Tables.NewestOfOne | database/models.py:230 | With `LIMIT 1` the page is empty iff no row passes the filter. Otherwise it is one passing row, and no passing row has a greater key. |
| Models.Database.constructor | database/models.py:44-71 | A new store has empty tables, zero counters and satisfies the table invariant. |
| Models.Database.AddStudent | database/models.py:90-108 | The insert is refused iff the given `student_id` is non-NULL and already taken (UNIQUE); nothing changes then. Otherwise it returns the next id, which no row holds, and appends exactly one row carrying the given fields with both timestamps equal to `now`. The attendance table is unchanged. |
| Models.Database.UpdateStudent | database/models.py:111-125 | Refused, changing nothing, iff row `id` exists and another row holds the new `student_id`. Otherwise only row `id`'s `student_id`, names and `updated_at` change; every other row and field is as before. |
| Models.Database.SetFaceEncodingPath | main.py:191-199 | Only `face_encoding_path` of row `id` changes. |
| Models.Database.DeleteStudent | database/models.py:148-169 | Removes the student row and every log with that `student_id`. Every other row stays, in its stored order (each table is the old one filtered by the two DELETE statements' conditions). |
| Models.Database.AddAttendanceLog | database/models.py:174-190 | Returns the next id, which no row holds, and appends exactly one log. The new log is open (status checked_in, no check-out time), checked in at `now` and carries the given student, class and image. |
| Models.Database.UpdateCheckoutTime | database/models.py:193-215 | Only the log with that id changes. Its check-out time becomes `now` and its status checked_out. Its image path is overwritten only when a non-empty path is given. |
| Queries.AllStudents | database/models.py:128-135 | The same rows with the same multiplicities, newest `created_at` first. |
| Queries.ActiveCheckin | database/models.py:218-235 | None iff no log is open, of that student, of that (non-NULL) class and checked in today. Otherwise it returns such a log, and no other such log has a later check-in. |
| Queries.StudentById | database/models.py:138-145 | None iff no row has that id; otherwise a row with that id. |
| Queries.Joined | database/models.py:248-258 | The LEFT JOIN: the log's own columns. When a student row has the log's `student_id` as its id, the row's `student_id`, first and last name; when none has, NULLs. |
| Queries.AttendanceLogs | database/models.py:238-283 | At most `limit` rows: exactly `min(limit, matching logs)`, or all of them for a negative limit. Newest check-in first. All are checked in on `date_filter` when one is given. The rows are a page of logs joined with their students: each matching log appears at most as often as it is stored, and no matching log left out has a later check-in than a log shown (the newest `limit`). |
| Queries.TodayAttendance | database/models.py:286-332 | Exactly the logs checked in today, newest first, restricted to the class when a non-empty class is given: the rows are a page of logs joined with their students, and that page has the same multiset as the matching logs. |
| Rules.ReadFace | main.py:150-168 | The picture checks, each with its own error: an undecodable picture (`InvalidImage`), no face (`NoFaceFound`), more than one face where one is required (`MultipleFaces`) and no encoding (`EncodingFailed`), refused in that order; otherwise the encoding. More than one face is refused only when `singleFace` holds (registration, main.py:161; the attendance check at main.py:323-324 accepts it). |
| Rules.DuplicateNameAsWritten | main.py:175-177 | The message name as written: the id fallback happens exactly when both rendered parts are whitespace, and otherwise the name is the non-empty trimmed "first last" text. But a NULL part renders as "None", so with a NULL part the name is the non-empty trimmed "first last" text. |
| Rules.DuplicateName | main.py:175-177 | The evidently intended message name: never empty. It is "ID: <id>" when both name parts are missing or blank. |
| Rules.UnnamedStudentShownAsNone | main.py:175-177 | For a student with no name yet, the message as written shows "None None", while the intended rule shows "ID: <id>". |
| Rules.DuplicateNameFallback | main.py:175-177 | The fallback to the id happens when both name parts are missing or blank. Otherwise the message shows the trimmed full name, which is non-empty. |
| Rules.RegisterFaceOutcome | main.py:170-199 | The picture-check error comes first. After that, registration is refused iff some enrolled student matches the face, and then always as `AlreadyRegistered`. The message names the closest match, the first of equally close ones in `created_at DESC` order (with the corrected name, see Left out), and the table is unchanged. Otherwise exactly one unnamed row with the next id is added, pointing at that id's encoding file. |
| Rules.CapturePath | main.py:292-300 | The capture path is never empty, so the check-out always records it. |
| Rules.Decide | main.py:350-397 | `scan_type == "check_out"` closes the active check-in returned by `get_active_checkin`, or is refused with the table unchanged when there is none. Any other `scan_type` (including NULL) is a check-in: refused with the table unchanged while a check-in is active, otherwise it appends exactly one open log under the next id. |
| Rules.CheckAttendanceOutcome | main.py:303-397 | The picture-check error comes first. The request is refused as not registered iff no student matches, with the table unchanged. Otherwise the scan is for the closest match (the first of equally close ones in `created_at DESC` order), and the outcome is `Decide` applied to that student with its capture path. |
| Rules.MatchedOutcome | main.py:331-397 | Once the face reads and the scan finds `student`, the attendance check is `Decide` for that student with its capture path. |
| Rules.DecideKeepsOneOpen | main.py:352-397 | When the check-in time falls on `today`, the rule preserves "at most one open log per (student, non-NULL class, day)". Open logs with a NULL class never clash, because `=` with NULL never holds (see `Rules.NullClassPilesUp`). |
| Rules.NullClassNeverActive | database/models.py:228 | With a NULL class, a check-in is always accepted and a check-out always refused. |
| Rules.NullClassPilesUp | database/models.py:228 | A request that sends `class_name` as null (the field is `Optional[str]` with a non-null default, main.py:58): two check-ins on one day are both accepted under consecutive ids, leaving two open logs of the same student, NULL class and day, and a check-out is still refused. |
| Rules.SecondCheckInRefused | main.py:389-394 | A second check-in on the same day for the same student and class is refused. |
| Rules.CheckOutClosesCheckIn | main.py:352-361 | A check-in followed by a check-out on the same day: the check-out closes exactly the log the check-in opened, and no other row changes. |
| Rules.ReentryAfterCheckOut | main.py:386-397 | After a check-in and a check-out on one day, another check-in is accepted under the next id, and another check-out is refused. |
| Rules.CloseLast | database/models.py:203-212 | Closing the last-appended log by an id no earlier row holds changes only that row. |
| Api.RegisterFace | main.py:138-205 | On the store, registration does exactly what `RegisterFaceOutcome` says. The table invariant holds afterwards (ids unique and below the counter, non-NULL `student_id` unique). The student counter becomes the new id on success and is unchanged otherwise, and the logs are untouched. |
| Api.Record | main.py:350-397 | On the store, the check-in/check-out step for a matched student writes exactly the log table `Decide` gives. The log counter moves only on an accepted check-in, the students are untouched, and the table invariant holds afterwards. |
| Api.CheckAttendance | main.py:303-421 | On the store, the attendance check does exactly what `CheckAttendanceOutcome` says. The students are untouched, and the log counter moves only on an accepted check-in. "At most one open log per (student, non-NULL class, day)" is kept when `now` falls on `today`. |

## Left out

- Face detection, encoding and distance (face_recognition_service.py:29-130). These are calls into dlib and OpenCV on floating-point vectors. Loading and comparison are abstract functions in `Matcher.FaceOps`, and detection is the face count in `Rules.Scan`. The 0.6 tolerance of config.py is inside the abstract comparison.
- Image decoding with cv2/numpy, base64 decoding, and writing capture files (main.py:286-298). These are image and file I/O. The file is also written before the check-in/check-out decision, so a refused scan still leaves a capture on disk; the model does not track files.
- Pickle save/load of encodings and removal of the encoding file in `delete_student` (face_recognition_service.py:75-103, database/models.py:152-161). This is filesystem I/O; a failed load is `None`.
- SQLite plumbing: connections, `init_database` and its migrations. The tables are sequences, and AUTOINCREMENT is a counter. SQLite's ceiling on AUTOINCREMENT ids is not modelled.
- Clock reads (`get_thai_time`, `get_thai_date`, `datetime.now()`): they are parameters. The source reads the clock separately for "today" and for the check-in time. The model keeps them separate, and `DecideKeepsOneOpen` assumes they agree.
- Queries.AttendanceLogs: `date_filter` is a day, not the text SQLite compares with `DATE(...)`. A malformed date string, which matches no row, and the empty string, which means no filter, are not represented.
- ORDER BY ... DESC ties: SQLite leaves the order of equal keys unspecified. The model uses one stable order, so a list with two students created in the same second may be scanned in another order by SQLite.
- The Discord notification (discord_service.py): network I/O.
- FastAPI routing, templates, HTTP status codes, response bodies and the display strings built for them (`display_name`, `student_id_display`).
- `api_update_student` and `api_delete_student` (main.py:111-133) only add a "404 when `get_student_by_id` finds nothing" in front of `Models.Database.UpdateStudent` and `Models.Database.DeleteStudent`. Both store operations are modelled, and `Queries.StudentById` is the lookup.
- Api.RegisterFace, Rules.RegisterFaceOutcome: the "already registered" message uses the corrected `Rules.DuplicateName`, not main.py:175-177 as written (`Rules.DuplicateNameAsWritten`). For a student whose name parts are NULL, the source shows "None None" where the model shows "ID: <id>" (see Findings).
- `api_register_face_upload` (main.py:208-271) differs from `api_register_face` only in how the picture arrives, so `Api.RegisterFace` models both.
- Models.Database.AddStudent: an INSERT whose `student_id` is taken raises an IntegrityError in the source. The model returns `Err(StudentIdTaken)` and changes nothing, as the failed statement does. Registration always inserts a NULL `student_id`, so it never takes this path.
- Models.Database.UpdateStudent: an UPDATE whose `student_id` is held by another row raises an error in the source. The model reports it as `false` and changes nothing.
- `created_at` is SQLite's `CURRENT_TIMESTAMP` (UTC), while check-in times use Thai time. The model takes one `now` per call, so only the order of `created_at` values is represented.
- Concurrency: two simultaneous check-ins can both see no active check-in. The model is sequential.

## Findings

| source | as written | input that shows it | evidently intended | confidence | as-written member | corrected member |
|---|---|---|---|---|---|---|
| main.py:175-177 (and 245-247) | `existing.get('first_name', '')` returns `None` for a NULL column, because the key exists. The f-string then renders "None None", so the name is never empty and the "ID: <id>" fallback never triggers. | A face that matches a student registered but not yet named by an admin (both names NULL, which is every freshly registered student). | Missing name parts count as empty, so the message shows "ID: <id>". | high, not executed | Rules.DuplicateNameAsWritten (shown by Rules.UnnamedStudentShownAsNone) | Rules.DuplicateName (proved by Rules.DuplicateNameFallback) |
