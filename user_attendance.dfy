/**
 * The per-employee, per-day attendance state machine of the recognition
 * endpoint (routes/user.py): log_attendance, which computes punctuality and
 * refuses a second event of the same type on the same day, and
 * get_next_check_type, which picks checkin or checkout from the latest
 * event of the day. The log is the `attendance` table of the database.
 */
module UserAttendance {
  import opened Wrappers
  import opened Settings
  import opened Database

  const CheckIn: string := "checkin"
  const CheckOut: string := "checkout"

  const Present: string := "present"
  const Late: string := "late"
  const Early: string := "early"
  const UnknownStatus: string := "unknown"

  /**
   * Punctuality at hour granularity: a checkin is late only from the hour
   * after CHECKIN_HOUR on, a checkout early only before CHECKOUT_HOUR;
   * minutes and seconds play no part.
   */
  function PunctualityStatus(checkType: string, now: Instant, cfg: Config): (status: string)
    ensures checkType == CheckIn ==> (status == Present <==> now.hour <= cfg.checkinHour)
    ensures checkType == CheckIn ==> (status == Late <==> now.hour > cfg.checkinHour)
    ensures checkType == CheckOut ==> (status == Present <==> now.hour >= cfg.checkoutHour)
    ensures checkType == CheckOut ==> (status == Early <==> now.hour < cfg.checkoutHour)
    ensures checkType != CheckIn && checkType != CheckOut ==> status == UnknownStatus
  {
    if checkType == CheckIn then (if now.hour <= cfg.checkinHour then Present else Late)
    else if checkType == CheckOut then (if now.hour >= cfg.checkoutHour then Present else Early)
    else UnknownStatus
  }

  // ---- the log and its invariant ----

  /** `r` is an event of `employeeId` of type `checkType` dated `day`. */
  predicate InSlot(r: AttendanceRow, employeeId: int, checkType: string, day: Date) {
    r.employeeId == employeeId && r.checkType == checkType && r.checkTime.date == day
  }

  /** The duplicate query: an event of that employee and type is already dated `day`. */
  predicate RecordedOn(rows: seq<AttendanceRow>, employeeId: int, checkType: string, day: Date) {
    exists i :: 0 <= i < |rows| && InSlot(rows[i], employeeId, checkType, day)
  }

  /** The central invariant: at most one event per (employee, calendar day, type). */
  ghost predicate OnePerSlot(rows: seq<AttendanceRow>) {
    forall i, j :: 0 <= i < j < |rows| ==>
      !InSlot(rows[j], rows[i].employeeId, rows[i].checkType, rows[i].checkTime.date)
  }

  /** The row log_attendance inserts: `now` without its microseconds, the computed status. */
  function NewRow(employeeId: int, employeeCode: string, checkType: string, imagePath: Option<string>,
                  now: Instant, cfg: Config): AttendanceRow
  {
    AttendanceRow(employeeId, employeeCode, now.(micro := 0), checkType, imagePath, PunctualityStatus(checkType, now, cfg))
  }

  /** The log after a log_attendance call that reaches the database. */
  function LogStep(rows: seq<AttendanceRow>, employeeId: int, employeeCode: string, checkType: string,
                   imagePath: Option<string>, now: Instant, cfg: Config): (r: seq<AttendanceRow>)
    ensures rows <= r && |r| <= |rows| + 1
    ensures r != rows <==> !RecordedOn(rows, employeeId, checkType, now.date)
    ensures RecordedOn(r, employeeId, checkType, now.date)
  {
    if RecordedOn(rows, employeeId, checkType, now.date) then rows
    else
      var r := rows + [NewRow(employeeId, employeeCode, checkType, imagePath, now, cfg)];
      assert InSlot(r[|rows|], employeeId, checkType, now.date);
      r
  }

  datatype LogResult = Logged | AlreadyLogged | LogFailed {
    /** The `success` field of the reply. */
    predicate Success() {
      Logged?
    }
  }

  /**
   * log_attendance: computes the status, looks for an event of the same
   * type dated today, and either refuses (AlreadyLogged) or appends exactly
   * one row and commits. A database error (`fault`) rolls back: LogFailed,
   * nothing stored.
   */
  method LogAttendance(db: FaceDatabase, employeeId: int, employeeCode: string, checkType: string,
                       imagePath: Option<string>, now: Instant, cfg: Config, fault: bool) returns (result: LogResult)
    modifies db`attendance
    ensures fault ==> result == LogFailed && db.attendance == old(db.attendance)
    ensures !fault ==> result == if RecordedOn(old(db.attendance), employeeId, checkType, now.date) then AlreadyLogged else Logged
    ensures !fault ==> db.attendance == LogStep(old(db.attendance), employeeId, employeeCode, checkType, imagePath, now, cfg)
    ensures OnePerSlot(old(db.attendance)) ==> OnePerSlot(db.attendance)
  {
    var row := NewRow(employeeId, employeeCode, checkType, imagePath, now, cfg);
    if fault {
      return LogFailed;
    }
    if RecordedOn(db.attendance, employeeId, checkType, now.date) {
      return AlreadyLogged;
    }
    LogStepKeepsOnePerSlot(db.attendance, employeeId, employeeCode, checkType, imagePath, now, cfg);
    db.attendance := db.attendance + [row];
    result := Logged;
  }

  /** One log_attendance call preserves the invariant. */
  lemma LogStepKeepsOnePerSlot(rows: seq<AttendanceRow>, employeeId: int, employeeCode: string, checkType: string,
                               imagePath: Option<string>, now: Instant, cfg: Config)
    ensures OnePerSlot(rows) ==> OnePerSlot(LogStep(rows, employeeId, employeeCode, checkType, imagePath, now, cfg))
  {
  }

  /** One request to log_attendance, as the recognition endpoint issues it. */
  datatype LogRequest = LogRequest(employeeId: int, employeeCode: string, checkType: string, imagePath: Option<string>, now: Instant)

  /** The log after a sequence of log_attendance calls that reach the database. */
  function Replay(rows: seq<AttendanceRow>, requests: seq<LogRequest>, cfg: Config): seq<AttendanceRow>
    decreases |requests|
  {
    if requests == [] then rows
    else
      var q := requests[0];
      Replay(LogStep(rows, q.employeeId, q.employeeCode, q.checkType, q.imagePath, q.now, cfg), requests[1..], cfg)
  }

  /**
   * Any sequence of calls keeps at most one event per (employee, day, type),
   * never removes or alters an existing row, and adds at most one row per call.
   */
  lemma {:induction false} ReplayKeepsOnePerSlot(rows: seq<AttendanceRow>, requests: seq<LogRequest>, cfg: Config)
    requires OnePerSlot(rows)
    ensures OnePerSlot(Replay(rows, requests, cfg))
    ensures rows <= Replay(rows, requests, cfg)
    ensures |Replay(rows, requests, cfg)| <= |rows| + |requests|
    decreases |requests|
  {
    if requests != [] {
      var q := requests[0];
      var next := LogStep(rows, q.employeeId, q.employeeCode, q.checkType, q.imagePath, q.now, cfg);
      LogStepKeepsOnePerSlot(rows, q.employeeId, q.employeeCode, q.checkType, q.imagePath, q.now, cfg);
      ReplayKeepsOnePerSlot(next, requests[1..], cfg);
    }
  }

  /** Two calls for the same employee, type and day: the second is refused and stores nothing. */
  lemma SecondCallSameDayRejected(rows: seq<AttendanceRow>, employeeId: int, checkType: string, cfg: Config,
                                  code1: string, image1: Option<string>, now1: Instant,
                                  code2: string, image2: Option<string>, now2: Instant)
    requires now1.date == now2.date
    ensures
      var once := LogStep(rows, employeeId, code1, checkType, image1, now1, cfg);
      RecordedOn(once, employeeId, checkType, now2.date)
      && LogStep(once, employeeId, code2, checkType, image2, now2, cfg) == once
  {
    var once := LogStep(rows, employeeId, code1, checkType, image1, now1, cfg);
    if !RecordedOn(rows, employeeId, checkType, now1.date) {
      assert InSlot(once[|rows|], employeeId, checkType, now2.date);
    }
  }

  // ---- choosing the next event type ----

  /** `r` is an event of `employeeId` dated `day`. */
  predicate OfDay(r: AttendanceRow, employeeId: int, day: Date) {
    r.employeeId == employeeId && r.checkTime.date == day
  }

  /**
   * The row `ORDER BY check_time DESC LIMIT 1` finds among the employee's
   * events of `day`; among rows with the same time, the one stored last.
   */
  function LatestOn(rows: seq<AttendanceRow>, employeeId: int, day: Date): (r: Option<AttendanceRow>)
    ensures r.None? <==> forall i :: 0 <= i < |rows| ==> !OfDay(rows[i], employeeId, day)
    ensures r.Some? ==> r.value in rows && OfDay(r.value, employeeId, day)
    ensures r.Some? ==> forall i :: 0 <= i < |rows| && OfDay(rows[i], employeeId, day) ==>
                          rows[i].checkTime.MicroOfDay() <= r.value.checkTime.MicroOfDay()
    decreases |rows|
  {
    if rows == [] then None
    else
      var earlier := rows[..|rows| - 1];
      var last := rows[|rows| - 1];
      var rest := LatestOn(earlier, employeeId, day);
      assert rows == earlier + [last];
      if OfDay(last, employeeId, day)
         && (rest.None? || rest.value.checkTime.MicroOfDay() <= last.checkTime.MicroOfDay())
      then Some(last)
      else rest
  }

  /** The check type of the fetched row, if any. */
  function TypeOf(row: Option<AttendanceRow>): Option<string> {
    if row.Some? then Some(row.value.checkType) else None
  }

  /** After a checkin comes a checkout; after anything else, or nothing, a checkin. */
  function NextCheckType(lastType: Option<string>): (t: string)
    ensures t == CheckIn || t == CheckOut
    ensures t == CheckOut <==> lastType == Some(CheckIn)
  {
    if lastType.None? then CheckIn
    else if lastType.value == CheckIn then CheckOut
    else CheckIn
  }

  /**
   * get_next_check_type: checkout exactly when the lookup works and the
   * latest event of the day is a checkin; checkin when there is none, when
   * it is anything else, or when the lookup fails.
   */
  method GetNextCheckType(db: FaceDatabase, employeeId: int, today: Date, fault: bool) returns (t: string)
    ensures t == CheckIn || t == CheckOut
    ensures t == CheckOut <==>
      !fault && LatestOn(db.attendance, employeeId, today).Some?
      && LatestOn(db.attendance, employeeId, today).value.checkType == CheckIn
    ensures t == NextCheckType(if fault then None else TypeOf(LatestOn(db.attendance, employeeId, today)))
  {
    var row: Option<AttendanceRow> := None;
    if !fault {
      row := LatestOn(db.attendance, employeeId, today);
    }
    if row.None? {
      return CheckIn;
    }
    var lastType := row.value.checkType;
    t := if lastType == CheckIn then CheckOut else CheckIn;
  }

  /** The log after one recognised face: next type chosen from the log, then log_attendance. */
  function RecognizedStep(rows: seq<AttendanceRow>, employeeId: int, employeeCode: string, now: Instant, cfg: Config): seq<AttendanceRow> {
    var t := NextCheckType(TypeOf(LatestOn(rows, employeeId, now.date)));
    LogStep(rows, employeeId, employeeCode, t, None, now, cfg)
  }

  /**
   * A row just appended at a time no earlier than the employee's other
   * events of that day is the latest of the day.
   */
  lemma {:induction false} AppendedIsLatest(rows: seq<AttendanceRow>, x: AttendanceRow)
    requires forall i :: 0 <= i < |rows| && OfDay(rows[i], x.employeeId, x.checkTime.date) ==>
               rows[i].checkTime.MicroOfDay() <= x.checkTime.MicroOfDay()
    ensures LatestOn(rows + [x], x.employeeId, x.checkTime.date) == Some(x)
  {
    var all := rows + [x];
    assert all[..|all| - 1] == rows;
    var rest := LatestOn(rows, x.employeeId, x.checkTime.date);
    if rest.Some? {
      var k :| 0 <= k < |rows| && rows[k] == rest.value;
    }
  }

  /**
   * A day for one employee, at any times of that day: the first
   * recognition records a checkin, the second a checkout, and the third is
   * the checkin that is refused as a duplicate.
   */
  lemma {:induction false} DayCycle(rows: seq<AttendanceRow>, employeeId: int, code: string, cfg: Config,
                 now1: Instant, now2: Instant, now3: Instant)
    requires forall i :: 0 <= i < |rows| ==> !OfDay(rows[i], employeeId, now1.date)
    requires now2.date == now1.date && now3.date == now1.date
    ensures
      var r1 := RecognizedStep(rows, employeeId, code, now1, cfg);
      var r2 := RecognizedStep(r1, employeeId, code, now2, cfg);
      && r1 == rows + [NewRow(employeeId, code, CheckIn, None, now1, cfg)]
      && r2 == r1 + [NewRow(employeeId, code, CheckOut, None, now2, cfg)]
      && RecognizedStep(r2, employeeId, code, now3, cfg) == r2
  {
    FirstOfDayChecksIn(rows, employeeId, code, now1, cfg);
    var r1 := rows + [NewRow(employeeId, code, CheckIn, None, now1, cfg)];
    CheckoutFollowsCheckin(r1, employeeId, code, now2, cfg);
    CompletedDayIsTerminal(RecognizedStep(r1, employeeId, code, now2, cfg), employeeId, code, now3, cfg);
  }

  /** The first recognition of the day records a checkin, which becomes the latest event of the day. */
  lemma FirstOfDayChecksIn(rows: seq<AttendanceRow>, employeeId: int, code: string, now: Instant, cfg: Config)
    requires forall i :: 0 <= i < |rows| ==> !OfDay(rows[i], employeeId, now.date)
    ensures var x := NewRow(employeeId, code, CheckIn, None, now, cfg);
      && RecognizedStep(rows, employeeId, code, now, cfg) == rows + [x]
      && LatestOn(rows + [x], employeeId, now.date) == Some(x)
      && !RecordedOn(rows + [x], employeeId, CheckOut, now.date)
  {
    var x := NewRow(employeeId, code, CheckIn, None, now, cfg);
    assert LatestOn(rows, employeeId, now.date).None?;
    assert !RecordedOn(rows, employeeId, CheckIn, now.date);
    AppendedIsLatest(rows, x);
    var r1 := rows + [x];
    forall i | 0 <= i < |r1|
      ensures !InSlot(r1[i], employeeId, CheckOut, now.date)
    {
      if i < |rows| {
        assert r1[i] == rows[i];
      }
    }
  }

  /** With a checkin as the latest event of the day and no checkout yet, the next recognition records a checkout. */
  lemma CheckoutFollowsCheckin(rows: seq<AttendanceRow>, employeeId: int, code: string, now: Instant, cfg: Config)
    requires LatestOn(rows, employeeId, now.date).Some? && LatestOn(rows, employeeId, now.date).value.checkType == CheckIn
    requires !RecordedOn(rows, employeeId, CheckOut, now.date)
    ensures RecognizedStep(rows, employeeId, code, now, cfg) == rows + [NewRow(employeeId, code, CheckOut, None, now, cfg)]
    ensures RecordedOn(RecognizedStep(rows, employeeId, code, now, cfg), employeeId, CheckIn, now.date)
    ensures RecordedOn(RecognizedStep(rows, employeeId, code, now, cfg), employeeId, CheckOut, now.date)
  {
    var k :| 0 <= k < |rows| && rows[k] == LatestOn(rows, employeeId, now.date).value;
    var r := rows + [NewRow(employeeId, code, CheckOut, None, now, cfg)];
    assert r[k] == rows[k];
  }

  /** Once a checkin and a checkout are logged for the day, every further recognition stores nothing. */
  lemma CompletedDayIsTerminal(rows: seq<AttendanceRow>, employeeId: int, code: string, now: Instant, cfg: Config)
    requires RecordedOn(rows, employeeId, CheckIn, now.date) && RecordedOn(rows, employeeId, CheckOut, now.date)
    ensures RecognizedStep(rows, employeeId, code, now, cfg) == rows
  {
  }

  /**
   * After a checkout the next type is checkin again, and when the day
   * already holds a checkin that checkin is refused.
   */
  lemma CheckinAfterCheckoutRefused(rows: seq<AttendanceRow>, employeeId: int, code: string, now: Instant, cfg: Config)
    requires LatestOn(rows, employeeId, now.date).Some?
    requires LatestOn(rows, employeeId, now.date).value.checkType == CheckOut
    requires RecordedOn(rows, employeeId, CheckIn, now.date)
    ensures NextCheckType(TypeOf(LatestOn(rows, employeeId, now.date))) == CheckIn
    ensures RecognizedStep(rows, employeeId, code, now, cfg) == rows
  {
  }
}
