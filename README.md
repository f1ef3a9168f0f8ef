# Attendance decision engine — a Dafny model

This project models the decision logic of a face-recognition attendance system in Dafny, and proves its properties:

- **Recognition endpoint.** A camera frame arrives. A liveness network decides whether the first face is real. A threshold matcher looks up the nearest stored face embedding. A per-employee, per-day state machine then decides between `checkin` and `checkout` and appends at most one event per (employee, day, type) to the attendance log.
- **Admin side.** The upload-extension check, the manual check-in with its 15-minute grace period, the shaping of attendance rows for the history table, the dashboard's absent count, and the validation of new employees and admins.
- **Browser side.** The status badges, the work-hours column, the detail-dialog filter, the employee search filter, and the edit dialog's bookkeeping.

## Layout

| file | module | what it holds |
|---|---|---|
| `wrappers.dfy` | `Wrappers` | `Option` (Python `None`, JavaScript `null`/`undefined`) |
| `settings.dfy` | `Settings` | `CHECKIN_HOUR` / `CHECKOUT_HOUR` as a `Config` value (default 9 and 18) |
| `text.dfy` | `Text` | ASCII lower-casing, substring search, `split` helpers, decimal digits, `strftime` fields |
| `sequences.dfy` | `Sequences` | order-preserving subsequences, the shape of a `filter` |
| `database.dfy` | `Database` | the tables as row datatypes, the inner join and the k-nearest query, and the `FaceDatabase` class (`add_face`, `search_face`) |
| `recognition.dfy` | `Recognition` | `FaceRecognizer.recognize` and what a match or a miss means against the store |
| `user_attendance.dfy` | `UserAttendance` | `log_attendance`, `get_next_check_type` and the one-event-per-slot invariant |
| `pipeline.dfy` | `RecognitionEndpoint` | the `recognize` endpoint: liveness, recognizer, next type, log |
| `admin.dfy` | `Admin` | `allowed_file`, `checkin`, `get_attendance` row shaping, the absent count, `add_employee`, `register` |
| `attendance_view.dfy` | `AttendanceView` | `mapStatus`, `calculateWorkHours`, `attendanceData`, `showAttendanceDetail` |
| `employees_view.dfy` | `EmployeesView` | `filterEmployees`, `employeesData`, `editingEmployeeId` and the edit dialog |

How the model is set up:

- **State.** `FaceDatabase` holds every table the engine touches, because the recognition endpoint writes attendance through the same connection. Each table is a `seq` field in insertion order. State-changing operations are methods with `modifies` frames. Each such method is proved equal to a specification function:
  - `LogStep` for `log_attendance`;
  - `Respond` for the `recognize` endpoint;
  - `ManualStep` for the manual check-in.

  The lemmas are stated about those specification functions.
- **Database errors.** The Python `except` branches are modelled as `fault` inputs. A fault means a rollback, with the error reply the source gives. The one exception is the next-type lookup of the recognition endpoint: it catches its error without a rollback, so the transaction stays aborted and the log write that follows fails too; a lookup fault therefore writes nothing.
- **Time.** Wall-clock time is an `Instant` parameter.
- **Distance.** The cosine distance is an arbitrary function `Distance` passed in by the caller.
- **Ties.** Tie-breaking is made explicit where SQL leaves it open:
  - `search_face` keeps stored order among equal distances;
  - `get_next_check_type` takes the row stored last among events with the same time.

Quirks the model keeps as written, each stated as a lemma:

- The recognizer returns the employee's name in the slot the endpoint uses as `employee_code`. Rows logged by recognition therefore carry the name in `employee_code` (`WritesOnlyForMatchedLiveFace`). An employee named "Unknown" is never logged (`EmployeeNamedUnknownIsNeverLogged`).
- After a checkout the next type is `checkin` again, and that checkin is refused as a duplicate (`CheckinAfterCheckoutRefused`, `DayCycle`). Through the endpoint, three requests with the same matched face on one day are answered checkin, checkout and ok, and the third stores nothing (`RespondDayCycle`).
- The manual check-in has no duplicate check, so it can store a second event for the same slot (`ManualCheckinBreaksOnePerSlot`).
- Its statuses "Có mặt" and "Đi muộn" are not among the keys of `mapStatus`, so both display as "Không rõ" (`ManualStatusesShowAsUnknown`).
- Its rule disagrees with the recognition path between CHECKIN_HOUR:16 and CHECKIN_HOUR:59 (`StatusRulesDisagree`).
- A shaped attendance row never carries both times, so the work-hours column is always empty (`TableNeverShowsWorkHours`).
- Shaped rows have no `check_time`, so the detail dialog throws as soon as a code matches and never opens (`DetailNeverOpensOnShapedRows`).

## Model

| member | source | states |
|---|---|---|
| UserAttendance.PunctualityStatus | routes/user.py:46-51 | a checkin is "present" iff the hour is at most CHECKIN_HOUR and "late" iff it is after; a checkout is "present" iff the hour is at least CHECKOUT_HOUR and "early" otherwise; any other type is "unknown"; minutes play no part |
| UserAttendance.LogStep | routes/user.py:56-78 | a call that reaches the database only appends, at most one row; it appends exactly when no event of that employee, type and day exists; afterwards such an event exists |
| UserAttendance.LogAttendance | routes/user.py:43-83 | a database error rolls back and stores nothing; otherwise an event of the same employee, type and calendar day already logged means success=False and an unchanged log, and its absence means exactly one appended row (the given employee, code, type and image, `now` without microseconds, the computed status); one-event-per-slot is preserved |
| UserAttendance.LogStepKeepsOnePerSlot | routes/user.py:56-78 | one log_attendance call keeps at most one event per (employee, day, type) |
| UserAttendance.ReplayKeepsOnePerSlot | routes/user.py:56-78 | any sequence of calls keeps the invariant, only appends (the old log is a prefix), and adds at most one row per call |
| UserAttendance.SecondCallSameDayRejected | routes/user.py:56-67 | after a call for an employee, type and day, a second call for the same triple stores nothing |
| UserAttendance.LatestOn | routes/user.py:89-99 | the latest event of the employee on the day: none iff the employee has no event that day; otherwise a stored event of that day whose time no other such event exceeds |
| UserAttendance.NextCheckType | routes/user.py:105-108 | the result is checkin or checkout, and checkout exactly when the fetched type is checkin |
| UserAttendance.GetNextCheckType | routes/user.py:86-108 | checkout iff the lookup works and the latest event today is a checkin; checkin when there is none, when it is anything else, or when the lookup fails; it reads the log without changing it |
| UserAttendance.AppendedIsLatest | routes/user.py:89-99 | a row appended at a time no earlier than the employee's other events that day is the one the lookup returns |
| UserAttendance.DayCycle | routes/user.py:86-108 | starting from a day with no events, recognitions (at any times of that day) record a checkin, then a checkout, then nothing |
| UserAttendance.FirstOfDayChecksIn | routes/user.py:86-108 | on a day without events the recognition stores a checkin, which becomes the latest event of the day, and no checkout exists yet |
| UserAttendance.CheckoutFollowsCheckin | routes/user.py:86-108 | when the latest event of the day is a checkin and no checkout exists, the recognition stores a checkout, after which both types are recorded for the day |
| UserAttendance.CompletedDayIsTerminal | routes/user.py:56-67 | once a checkin and a checkout are logged for the day, further recognitions store nothing |
| UserAttendance.CheckinAfterCheckoutRefused | routes/user.py:105-108 | after a checkout the next type is checkin, and with a checkin already logged that day it is refused |
| Database.JoinOne | modules/database.py:47-49 | the join rows of one stored face: at most one per employee, each carrying the face's employee id and the face's distance to the query |
| Database.Joined | modules/database.py:47-49 | the inner join has at most |faces| · |employees| rows |
| Database.JoinOneMembership | modules/database.py:47-49 | a join row of one face exists iff some employee has that face's employee id |
| Database.JoinedMembership | modules/database.py:47-49 | a row is in the inner join iff it pairs a stored face with the employee of the same id |
| Database.Insert | modules/database.py:50 | inserting into a distance-sorted list keeps it sorted and adds exactly that row |
| Database.SortByDistance | modules/database.py:50 | `ORDER BY distance ASC`: a sorted permutation of the candidates |
| Database.Nearest | modules/database.py:50-51 | `LIMIT k` of the sorted candidates: min(k, n) rows, sorted, drawn from the candidates |
| Database.NearestIsSubMultiset | modules/database.py:50-51 | the answer holds no candidate more often than the candidates do |
| Database.TopIsNearest | modules/database.py:50-51 | the top-1 answer is empty iff there are no candidates, and otherwise it is a candidate that no other candidate beats |
| Database.NearestIsClosest | modules/database.py:50-51 | no candidate left out of the answer is closer than a row in it |
| Database.NearestHeadIsMinimum | modules/database.py:50-51 | with k ≥ 1 and any candidate, the answer is non-empty and its first row is at minimum distance |
| Database.FaceDatabase.AddFace | modules/database.py:17-35 | success appends exactly one row (id, code, embedding, filename) and keeps every earlier row; an error rolls back and leaves the rows unchanged |
| Database.FaceDatabase.SearchFace | modules/database.py:37-59 | an error yields []; otherwise the k nearest join rows: at most k, sorted by distance, each pairing a stored face with an existing employee; nothing is written |
| Database.NoEmployeesNoAnswer | modules/database.py:47-49 | with no employees the search answers nothing |
| Recognition.Classify | modules/recognition.py:25-35 | an id iff there is a top row within the threshold (equality included), with that row's id and name; "Unknown" otherwise; a distance iff there is a top row, and then confidence 1 − distance |
| Recognition.Outcome | modules/recognition.py:15-35 | no embedding or a failing search answers (None, "Unknown", None, None); a named answer always reports a distance within the threshold |
| Recognition.FaceRecognizer.Recognize | modules/recognition.py:15-35 | the answer equals the decision over one top-1 search of the current store, and a None embedding answers (None, "Unknown", None, None) without querying; the store is never written |
| Recognition.MatchIsNearestWithinThreshold | modules/recognition.py:25-33 | a match reports a join row within the threshold that no candidate beats: its id, its name, its distance, confidence 1 − distance |
| Recognition.MatchNamesEnrolledEmployee | modules/recognition.py:25-33 | a match names an employee with a stored face within the threshold, reporting that employee's name |
| Recognition.MatchIffCandidateWithinThreshold | modules/recognition.py:25-35 | for a working store, somebody is named exactly when some candidate lies within the threshold (equality counts as a match) |
| Recognition.MissReportsNearestDistance | modules/recognition.py:29-35 | a miss over a non-empty candidate set is "Unknown" with the nearest distance, above the threshold, and 1 − distance |
| Recognition.ClassifyMiss | modules/recognition.py:29-35 | a top row beyond the threshold answers (None, "Unknown", d, 1 − d) |
| Recognition.NothingToMatchIsUnknown | modules/recognition.py:16-27 | no embedding, a failing store, no faces or no employees all answer (None, "Unknown", None, None) |
| Recognition.SelfQueryMatches | modules/recognition.py:25-33 | a store holding the query itself at distance 0 answers that employee with confidence 1 |
| RecognitionEndpoint.Respond | routes/user.py:116-165 | a request only appends to the log, at most one row, and only with an ok reply; the reply is 400 exactly when there is no image |
| RecognitionEndpoint.Recognize | routes/user.py:116-165 | the reply and the new log equal the endpoint specification; for a live first face, a recognizer answer naming nobody (or "Unknown") gives unknown without writing, and a named match with a working lookup and log gives ok with the type chosen from the day's latest event and a log advanced by one recognition step; one-event-per-slot is preserved |
| RecognitionEndpoint.SpoofWritesNothing | routes/user.py:134-143 | a face the liveness check rejects is answered fake and nothing is written, whatever its embedding |
| RecognitionEndpoint.WritesOnlyForMatchedLiveFace | routes/user.py:142-155 | the log changes only on an ok reply for a live first face matched within the threshold, and then by exactly one checkin or checkout row for that employee, carrying the employee's name in employee_code, and only when neither the lookup nor the log failed |
| RecognitionEndpoint.OkIgnoresLogOutcome | routes/user.py:136-163 | the reply is ok exactly when the first face is live and the recognizer names an employee other than "Unknown", so it does not depend on the log's contents or on lookup and logging errors |
| RecognitionEndpoint.LiveFaceReply | routes/user.py:136-163 | a live first face that the recognizer does not name is answered unknown with the log unchanged; a named one, with a working lookup and log, is answered ok with the next type from the day's latest event and the log advanced by one recognition step |
| RecognitionEndpoint.RespondDayCycle | routes/user.py:86-163 | three fault-free requests with one matched live face on a day without events: ok/checkin with one new row, ok/checkout with one new row, then ok with nothing stored |
| RecognitionEndpoint.FailedLookupWritesNothing | routes/user.py:86-103 | a failed next-type lookup leaves the transaction aborted, so nothing is written, and an ok reply then announces a checkin |
| RecognitionEndpoint.EmployeeNamedUnknownIsNeverLogged | routes/user.py:146-149 | an employee whose name is "Unknown" is answered unknown even when matched, and nothing is written |
| RecognitionEndpoint.OnlyFirstFaceMatters | routes/user.py:134-163 | the reply and the write are the same as for a frame holding only the first face |
| RecognitionEndpoint.RespondKeepsOnePerSlot | routes/user.py:116-165 | every request keeps at most one event per (employee, day, type) |
| Admin.AllowedFile | routes/admin.py:33-34 | the extension check itself; what it accepts is stated by AllowedFileIff and NoDotNoUpload |
| Admin.AllowedFileIff | routes/admin.py:30-34 | for the position of the last dot, a name is allowed exactly when the text after it is png, jpg, jpeg or gif in any letter case |
| Admin.NoDotNoUpload | routes/admin.py:33-34 | a name without a dot is never allowed |
| Admin.ManualStatus | routes/admin.py:421-425 | the manual status is "Có mặt" or "Đi muộn", and always "Có mặt" for any type other than checkin |
| Admin.ManualLateIff | routes/admin.py:421-425 | the manual status is "Đi muộn" iff the type is checkin and the minutes since midnight exceed CHECKIN_HOUR·60 + 15 (seconds cancel); otherwise "Có mặt" |
| Admin.StatusRulesDisagree | routes/admin.py:421-425 | at CHECKIN_HOUR:16 and later in that hour the recognition path says present while the manual path says late |
| Admin.FindByCode | routes/admin.py:411-416 | the employee lookup by code finds none iff no employee has the code, and otherwise an employee with that code |
| Admin.ManualStep | routes/admin.py:395-440 | a request only appends to the log, at most one row, and it appends exactly when the reply is 200 |
| Admin.ManualCheckin | routes/admin.py:395-440 | the reply and the new log equal the checkin specification: missing or empty code is 400, an unknown code 404, both without writing; a known code inserts one row with the code as sent, `now`, the type (default checkin) and the manual status |
| Admin.ManualStepOutcomes | routes/admin.py:400-440 | 400 iff the code is missing or empty; 404 iff no employee has it; the log changes iff the reply is 200, and then by exactly one row for an employee with that code; a 200 reply carries the sent type (default checkin) and the manual status of that type at `now`, which is also the stored status |
| Admin.ManualCheckinBreaksOnePerSlot | routes/admin.py:427-432 | with an event already logged for the slot, a manual check-in still succeeds and breaks one-event-per-slot |
| Admin.ShapeRow | routes/admin.py:315-326 | a shaped object keeps the row's id, code, name and status, and never carries both a check-in and a check-out time |
| Admin.DateText | routes/admin.py:322 | the `%Y-%m-%d` text is ten characters with '-' at positions 4 and 7 |
| Admin.ShapeRows | routes/admin.py:315-326 | one shaped object per query row, in order |
| Admin.ShapedRowHasAtMostOneTime | routes/admin.py:320-324 | checkin_time is set iff there is a time and the type is checkin; checkout_time iff there is a time and the type is checkout; never both; the date is null iff the time is |
| Admin.DateTextReadsBack | routes/admin.py:322 | the year, month and day fields of the shaped date read back as the date's year, month and day |
| Admin.ClockReadsBack | routes/admin.py:323-324 | the shaped HH:MM fields read back as the hour and minute |
| Admin.DistinctIdsCount | routes/admin.py:344-355 | with distinct ids, the number of distinct employee ids is the number of employees |
| Admin.AbsentToday | routes/admin.py:344-355 | absent_today is at most the number of employees, and equal to it when nobody has checked in today |
| Admin.AbsentIsEmployeesWithoutCheckin | routes/admin.py:344-355 | when every checkin today belongs to an employee, absent_today is the number of employees without a checkin today, between 0 and the total |
| Admin.AbsentCanBeNegative | routes/admin.py:344-355 | a checkin today by an id that is no employee's drives absent_today below zero |
| Admin.AddEmployee | routes/admin.py:176-228 | a missing or empty field gives 400 and an existing code gives 400, both without writing; otherwise one employee row with the next id, and for an allowed image with a face one face row named after "code_filename"; database invariants (unique ids and codes) are preserved |
| Database.EmployeeKeysAppend | routes/admin.py:192-203 | an employee row with the serial's next id and a code no row has keeps ids below the serial and ids and codes unique |
| Database.AdminKeysAppend | routes/admin.py:128-138 | an admin row with the serial's next id and a username no row has keeps ids below the serial and usernames unique |
| Admin.Register | routes/admin.py:114-147 | missing credentials or an existing username give 400 without writing; otherwise one admin row with the next id and the hash; usernames stay unique |
| AttendanceView.MapStatus | static/js/attendance.js:4-17 | the badge table; what it assigns is stated by LabelDeterminesStatus and the two lemmas after it |
| AttendanceView.LabelDeterminesStatus | static/js/attendance.js:4-17 | only present, late, early and absent escape the "Không rõ" fallback, and their labels are pairwise different |
| AttendanceView.RecognitionStatusesAreLabelled | static/js/attendance.js:4-17 | every status the recognition path writes for checkin or checkout gets its own label |
| AttendanceView.ManualStatusesShowAsUnknown | static/js/attendance.js:4-17 | both statuses of the manual check-in display as "Không rõ" |
| AttendanceView.WorkHours | static/js/attendance.js:94-96 | '' when either time is missing or empty |
| AttendanceView.ClockPartsOfClock | static/js/attendance.js:98-99 | splitting an HH:MM text at ':' and converting with Number gives back the hour and minute |
| AttendanceView.WorkHoursOfClocks | static/js/attendance.js:94-113 | for two clock times, '' iff checkout is not after checkin; otherwise "Hh Mm" with H·60 + M the span in minutes and M < 60 |
| AttendanceView.TableNeverShowsWorkHours | static/js/attendance.js:86 | on the rows get_attendance sends, the work-hours column is always '' |
| AttendanceView.DetailRecords | static/js/attendance.js:185-188 | a TypeError iff some record with the code has no check_time; otherwise an order-preserving subsequence holding exactly the records with the code whose check_time date prefix is the date, each as often as in the data |
| AttendanceView.AttendancePage.Load | static/js/attendance.js:39-46 | a successful reply replaces attendanceData with the received rows; otherwise it stays |
| AttendanceView.DetailOf | static/js/attendance.js:184-231 | the dialog throws iff some record with the code has no check_time; otherwise it shows nothing iff no record has the code and the date; when shown, its lines are the kind and badge of each wanted record in order, and its title is the first wanted record's name, or the code when that name is empty or null |
| AttendanceView.AttendancePage.ShowDetail | static/js/attendance.js:184-216 | throws, does nothing on an empty selection, or shows the first record's name (or the code) and one line per selected record with its kind and status badge |
| AttendanceView.DetailNeverOpensOnShapedRows | static/js/attendance.js:185-190 | on the rows get_attendance sends, the dialog throws when the code matches some row and does nothing otherwise |
| EmployeesView.Matches | static/js/employees.js:95-108 | the filter's predicate; what it keeps is stated by FilterEmployees and FilteredMeansMatching |
| EmployeesView.FilterEmployees | static/js/employees.js:95-108 | an order-preserving subsequence of the list, every kept employee matches the search and the position, and each matching employee is kept as often as it occurs |
| EmployeesView.EmptyFilterKeepsAll | static/js/employees.js:100-105 | with no search text and no position every employee is listed in order |
| EmployeesView.FilteredMeansMatching | static/js/employees.js:99-108 | an employee is listed iff it is in the data, the lower-cased text is inside its lower-cased code or name (or empty), and the position is unselected or equal |
| EmployeesView.FindById | static/js/employees.js:175 | none iff no employee has the id; otherwise the first employee with that id |
| EmployeesView.EmployeesPage.Load | static/js/employees.js:12-20 | a successful reply replaces employeesData; otherwise it stays |
| EmployeesView.EmployeesPage.Edit | static/js/employees.js:174-188 | an id not in the list leaves editingEmployeeId unchanged; a listed id becomes it, and its record fills the form |
| EmployeesView.EmployeesPage.CloseEditModal | static/js/employees.js:191-195 | editingEmployeeId becomes null |
| EmployeesView.EmployeesPage.SubmitEdit | static/js/employees.js:198-232 | with editingEmployeeId null or 0 nothing is sent and nothing changes; otherwise one update for that id with the form's fields, and a successful reply closes the dialog |
| Text.Lower | static/js/employees.js:96-102 | lower-casing keeps the length and lower-cases each ASCII letter |
| Text.LastIndexOf | routes/admin.py:34 | the position of the last '.', none iff there is none |
| Text.BeforeFirst | static/js/attendance.js:98-99 | `split(c)[0]`: a prefix with no c, followed by c unless it is the whole text |
| Text.BeforeFirstPrefix | static/js/attendance.js:98-99 | the text before the first c of p + c + rest is p when p has no c |
| Text.NatToString | static/js/attendance.js:112 | the decimal rendering is a non-empty run of digits, a single digit exactly below 10 and without a leading zero above |
| Text.NatToStringRoundTrip | static/js/attendance.js:112 | the decimal rendering reads back as the number |
| Text.PadDigits | routes/admin.py:322-324 | the zero-padded field has the requested width and only digits |
| Text.PadDigitsRoundTrip | routes/admin.py:322-324 | a number below 10^w padded to width w reads back as itself |
| Text.Clock | routes/user.py:122 | an HH:MM text is five characters with ':' in the middle |

## Left out

- Neural networks and image handling: face detection, embedding extraction, liveness, base64 and image decoding. The liveness verdict, the number of boxes and the extracted faces' embeddings are inputs (`Frame`, `DetectedFace`).
- The cosine distance and embedding normalisation (floating point). The distance is an arbitrary `real`-valued function, and pgvector's float rendering of vectors is not modelled.
- SQL text, connections and pgvector are not modelled. The admin endpoints' 500 replies (no connection, exceptions) are not modelled either; the recognition path's database errors are `fault` inputs.
- The attendance query's filters and `ORDER BY ... LIMIT 100`: the query rows are an input to `Admin.ShapeRows`. The hard-coded late count of the dashboard (`EXTRACT(HOUR) > 9 AND EXTRACT(MINUTE) > 0`) and the recent-activity list are also left out.
- Concurrency: calls are sequential. The read-then-insert of log_attendance is not claimed safe under interleaved requests.
- The clock: `now` is a parameter. The database's `CURRENT_DATE` is taken to be the date of `now`. In PostgreSQL `CURRENT_DATE` is the date at which the current transaction began. On the user path a transaction stays open after the face search, whose SELECT is never committed (modules/database.py:45-55), and after a duplicate rejection, which returns without a commit (routes/user.py:65-67). After midnight the duplicate check and the next-type lookup can therefore read the previous day. DayCycle and ReplayKeepsOnePerSlot rest on taking the two dates to be the same. The source also reads the clock twice, once for the reply text (routes/user.py:122) and once for the stored time (routes/user.py:44); the model uses one `now` for both.
- Authentication, tokens, bcrypt: the password hash is an input to `Admin.Register`.
- werkzeug's `secure_filename` is a function parameter of `Admin.AddEmployee`.
- The update, delete and listing endpoints of employees are not part of this model, and neither are the pages' DOM rendering, notifications and `fetch`.
- Text.Lower: lower-cases ASCII letters only, where Python's `lower` and JavaScript's `toLowerCase` follow Unicode.
- AttendanceView.WorkHours: `Number` is modelled for the empty text and runs of decimal digits only. Signs, whitespace, decimals and other numeric forms are treated as NaN. The span ignores daylight-saving changes of `Date`.
- Admin.ManualCheckin: a JSON `null` check_type is modelled like an absent one, as "checkin". The success message's `title()` text is left out.
- Admin.DateTextReadsBack: years below 1000 are written with four digits, whatever the platform's `strftime` does for them.
- Recognition.FaceRecognizer.Recognize: the conversion of tensors to arrays is left out; embeddings are sequences of reals.
- The request body missing altogether (`get_json()` returning None) is not modelled.
