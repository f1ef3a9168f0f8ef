/**
 * The rules of the admin endpoints (routes/admin.py): the upload-extension
 * check, the manual check-in (status with a 15-minute grace period and no
 * duplicate check), the shaping of attendance rows for the table, the
 * dashboard's absent count, and the field-presence and uniqueness checks of
 * add_employee and register.
 */
module Admin {
  import opened Wrappers
  import opened Text
  import opened Settings
  import opened Database
  import opened UserAttendance

  // ---- allowed_file ----

  const AllowedExtensions: set<string> := {"png", "jpg", "jpeg", "gif"}

  /** `'.' in filename and filename.rsplit('.', 1)[1].lower() in ALLOWED_EXTENSIONS` */
  predicate AllowedFile(filename: string) {
    match LastIndexOf(filename, '.')
    case None => false
    case Some(i) => Lower(filename[i + 1..]) in AllowedExtensions
  }

  /**
   * The extension is the text after the LAST dot: for the position of the
   * last dot, the name is allowed exactly when that text, in any case, is
   * an allowed extension.
   */
  lemma AllowedFileIff(filename: string, i: nat)
    requires i < |filename| && filename[i] == '.' && '.' !in filename[i + 1..]
    ensures AllowedFile(filename) <==> Lower(filename[i + 1..]) in AllowedExtensions
  {
    assert filename[i] in filename;
    LastOccurrenceUnique(filename, '.', i, LastIndexOf(filename, '.').value);
  }

  /** A name without a dot is never allowed, however it ends. */
  lemma NoDotNoUpload(filename: string)
    requires '.' !in filename
    ensures !AllowedFile(filename)
  {
  }

  // ---- the manual check-in (checkin) ----

  const ManualPresent: string := "Có mặt"
  const ArrivedLate: string := "Đi muộn"

  /**
   * The manual status: a checkin is late when `now` is after today at
   * CHECKIN_HOUR:00 (seconds and microseconds taken from `now`, as
   * `replace` keeps them) plus 15 minutes; every other type is on time.
   */
  function ManualStatus(checkType: string, now: Instant, cfg: Config): (status: string)
    requires now.Valid() && cfg.CheckinHourValid()
    ensures status == ManualPresent || status == ArrivedLate
    ensures checkType != CheckIn ==> status == ManualPresent
  {
    if checkType == CheckIn then
      var expected := now.(hour := cfg.checkinHour, minute := 0);
      if now.MicroOfDay() > expected.MicroOfDay() + 15 * 60 * 1000000 then ArrivedLate else ManualPresent
    else ManualPresent
  }

  /** Late exactly when the minutes since midnight exceed CHECKIN_HOUR·60 + 15; checkouts are never late. */
  lemma ManualLateIff(checkType: string, now: Instant, cfg: Config)
    requires now.Valid() && cfg.CheckinHourValid()
    ensures ManualStatus(checkType, now, cfg) == ArrivedLate <==>
      checkType == CheckIn && now.hour * 60 + now.minute > cfg.checkinHour * 60 + 15
    ensures ManualStatus(checkType, now, cfg) == ManualPresent || ManualStatus(checkType, now, cfg) == ArrivedLate
  {
    var expected := now.(hour := cfg.checkinHour, minute := 0);
    var a := now.hour * 60 + now.minute;
    var b := cfg.checkinHour * 60 + 15;
    assert now.MicroOfDay() - (expected.MicroOfDay() + 15 * 60 * 1000000) == (a - b) * 60000000;
  }

  /**
   * The two paths disagree within the grace hour: at CHECKIN_HOUR:16 the
   * recognition path records "present" while the manual path says late.
   */
  lemma StatusRulesDisagree(now: Instant, cfg: Config)
    requires now.Valid() && cfg.CheckinHourValid()
    requires now.hour == cfg.checkinHour && now.minute > 15
    ensures PunctualityStatus(CheckIn, now, cfg) == Present
    ensures ManualStatus(CheckIn, now, cfg) == ArrivedLate
  {
    ManualLateIff(CheckIn, now, cfg);
  }

  /** The first employee with the given code (the code column is unique). */
  function FindByCode(employees: seq<Employee>, code: string): (r: Option<Employee>)
    ensures r.None? <==> forall e :: e in employees ==> e.code != code
    ensures r.Some? ==> r.value in employees && r.value.code == code
  {
    if employees == [] then None
    else if employees[0].code == code then Some(employees[0])
    else FindByCode(employees[1..], code)
  }

  /** The JSON reply of checkin. */
  datatype CheckinReply =
    | MissingCode
    | EmployeeNotFound
    | CheckinDone(checkType: string, time: string, status: string)
  {
    function HttpCode(): int {
      match this
      case MissingCode => 400
      case EmployeeNotFound => 404
      case CheckinDone(_, _, _) => 200
    }
  }

  /** The row checkin inserts: the code as sent, `now` with its microseconds, no image. */
  function ManualRow(e: Employee, code: string, checkType: string, now: Instant, cfg: Config): AttendanceRow
    requires now.Valid() && cfg.CheckinHourValid()
  {
    AttendanceRow(e.id, code, now, checkType, None, ManualStatus(checkType, now, cfg))
  }

  /**
   * The reply and the log after one checkin request. A missing or empty
   * code and an unknown code are refused; a missing check_type means
   * "checkin". `checkType` None stands for the absent key.
   */
  function ManualStep(employees: seq<Employee>, rows: seq<AttendanceRow>, code: Option<string>,
                      checkType: Option<string>, now: Instant, cfg: Config): (r: (CheckinReply, seq<AttendanceRow>))
    requires now.Valid() && cfg.CheckinHourValid()
    ensures rows <= r.1 && |r.1| <= |rows| + 1
    ensures r.1 != rows <==> r.0.HttpCode() == 200
  {
    if code.None? || code.value == "" then (MissingCode, rows)
    else
      match FindByCode(employees, code.value)
      case None => (EmployeeNotFound, rows)
      case Some(e) =>
        var t := checkType.GetOr(CheckIn);
        (CheckinDone(t, Clock(now.hour, now.minute) + ":" + PadDigits(now.second, 2), ManualStatus(t, now, cfg)),
         rows + [ManualRow(e, code.value, t, now, cfg)])
  }

  /** checkin: validate, look the code up, insert without looking at earlier events. */
  method ManualCheckin(db: FaceDatabase, code: Option<string>, checkType: Option<string>, now: Instant, cfg: Config)
    returns (reply: CheckinReply)
    requires now.Valid() && cfg.CheckinHourValid()
    modifies db`attendance
    ensures (reply, db.attendance) == ManualStep(db.employees, old(db.attendance), code, checkType, now, cfg)
  {
    if code.None? || code.value == "" {
      return MissingCode;
    }
    var employee := FindByCode(db.employees, code.value);
    if employee.None? {
      return EmployeeNotFound;
    }
    var t := checkType.GetOr(CheckIn);
    var status := ManualStatus(t, now, cfg);
    db.attendance := db.attendance + [ManualRow(employee.value, code.value, t, now, cfg)];
    reply := CheckinDone(t, Clock(now.hour, now.minute) + ":" + PadDigits(now.second, 2), status);
  }

  /** 400 and 404 leave the log alone; a known code always adds exactly one row for that employee. */
  lemma ManualStepOutcomes(employees: seq<Employee>, rows: seq<AttendanceRow>, code: Option<string>,
                           checkType: Option<string>, now: Instant, cfg: Config)
    requires now.Valid() && cfg.CheckinHourValid()
    ensures var (reply, after) := ManualStep(employees, rows, code, checkType, now, cfg);
      && (reply.HttpCode() != 200 <==> after == rows)
      && (reply.MissingCode? <==> code.None? || code.value == "")
      && (reply.EmployeeNotFound? <==> code.Some? && code.value != "" && forall e :: e in employees ==> e.code != code.value)
      && (reply.CheckinDone? ==> exists e :: (e in employees && e.code == code.value
            && after == rows + [AttendanceRow(e.id, code.value, now, checkType.GetOr(CheckIn), None, reply.status)]))
      && (reply.CheckinDone? ==> (reply.checkType == checkType.GetOr(CheckIn)
            && reply.status == ManualStatus(checkType.GetOr(CheckIn), now, cfg)))
  {
  }

  /**
   * With no duplicate check, a second manual checkin of the same type on the
   * same day stores a second event: the one-per-slot invariant the
   * recognition path keeps does not survive the admin path.
   */
  lemma ManualCheckinBreaksOnePerSlot(employees: seq<Employee>, rows: seq<AttendanceRow>, e: Employee,
                                      checkType: string, now: Instant, cfg: Config)
    requires now.Valid() && cfg.CheckinHourValid()
    requires e in employees && e.code != "" && forall x :: x in employees && x.code == e.code ==> x == e
    requires RecordedOn(rows, e.id, checkType, now.date)
    ensures ManualStep(employees, rows, Some(e.code), Some(checkType), now, cfg).0.CheckinDone?
    ensures !OnePerSlot(ManualStep(employees, rows, Some(e.code), Some(checkType), now, cfg).1)
  {
    var after := ManualStep(employees, rows, Some(e.code), Some(checkType), now, cfg).1;
    var i :| 0 <= i < |rows| && InSlot(rows[i], e.id, checkType, now.date);
    assert after[i] == rows[i];
    assert after[|rows|].employeeId == e.id;
    assert InSlot(after[|rows|], after[i].employeeId, after[i].checkType, after[i].checkTime.date);
  }

  // ---- get_attendance: shaping the query rows ----

  /** A row of the attendance query: the log LEFT JOINed with employees for the name. */
  datatype QueryRow = QueryRow(id: int, employeeCode: string, employeeName: Option<string>,
                               checkTime: Option<Instant>, checkType: string, workStatus: string)

  /** The JSON object sent to the attendance table (None is JSON null). */
  datatype ShapedRow = ShapedRow(id: int, employeeCode: string, employeeName: Option<string>, date: Option<string>,
                                 checkinTime: Option<string>, checkoutTime: Option<string>, status: string)

  /** strftime("%Y-%m-%d"). */
  function DateText(d: Date): (s: string)
    requires d.year >= 0 && d.month >= 0 && d.day >= 0
    ensures |s| == 10 && s[4] == '-' && s[7] == '-'
  {
    PadDigits(d.year, 4) + "-" + PadDigits(d.month, 2) + "-" + PadDigits(d.day, 2)
  }

  /** One object of `data`; times are strftime("%H:%M"). */
  function ShapeRow(r: QueryRow): (s: ShapedRow)
    requires r.checkTime.Some? ==> r.checkTime.value.Valid()
    ensures s.id == r.id && s.employeeCode == r.employeeCode && s.employeeName == r.employeeName
    ensures s.status == r.workStatus
    ensures s.checkinTime.None? || s.checkoutTime.None?
  {
    var clock := if r.checkTime.Some? then Some(Clock(r.checkTime.value.hour, r.checkTime.value.minute)) else None;
    ShapedRow(r.id, r.employeeCode, r.employeeName,
              if r.checkTime.Some? then Some(DateText(r.checkTime.value.date)) else None,
              if r.checkType == CheckIn then clock else None,
              if r.checkType == CheckOut then clock else None,
              r.workStatus)
  }

  /** The loop of get_attendance: one object per query row, in order. */
  method ShapeRows(rows: seq<QueryRow>) returns (data: seq<ShapedRow>)
    requires forall i :: 0 <= i < |rows| && rows[i].checkTime.Some? ==> rows[i].checkTime.value.Valid()
    ensures |data| == |rows|
    ensures forall i :: 0 <= i < |rows| ==> data[i] == ShapeRow(rows[i])
  {
    data := [];
    for k := 0 to |rows|
      invariant |data| == k
      invariant forall i :: 0 <= i < k ==> data[i] == ShapeRow(rows[i])
    {
      data := data + [ShapeRow(rows[k])];
    }
  }

  /**
   * A shaped row carries a check-in time exactly for a timed checkin and a
   * check-out time exactly for a timed checkout, so never both; the date is
   * null exactly when the time is.
   */
  lemma ShapedRowHasAtMostOneTime(r: QueryRow)
    requires r.checkTime.Some? ==> r.checkTime.value.Valid()
    ensures ShapeRow(r).checkinTime.Some? <==> r.checkTime.Some? && r.checkType == CheckIn
    ensures ShapeRow(r).checkoutTime.Some? <==> r.checkTime.Some? && r.checkType == CheckOut
    ensures ShapeRow(r).checkinTime.None? || ShapeRow(r).checkoutTime.None?
    ensures ShapeRow(r).date.None? <==> r.checkTime.None?
  {
  }

  /** The shaped date reads back as the event's year, month and day. */
  lemma {:induction false} DateTextReadsBack(d: Date)
    requires 1 <= d.year <= 9999 && 1 <= d.month <= 12 && 1 <= d.day <= 31
    ensures var s := DateText(d);
      DigitsValue(s[..4]) == d.year && DigitsValue(s[5..7]) == d.month && DigitsValue(s[8..]) == d.day
  {
    assert Pow10(2) == 100 && Pow10(4) == 10000 by {
      assert Pow10(1) == 10;
      assert Pow10(3) == 1000;
    }
    PadDigitsRoundTrip(d.year, 4);
    PadDigitsRoundTrip(d.month, 2);
    PadDigitsRoundTrip(d.day, 2);
    DateFields(PadDigits(d.year, 4), PadDigits(d.month, 2), PadDigits(d.day, 2));
  }

  /** The three fields of a YYYY-MM-DD text sit at positions 0-3, 5-6 and 8-9. */
  lemma DateFields(y: string, m: string, d: string)
    requires |y| == 4 && |m| == 2 && |d| == 2
    ensures (y + "-" + m + "-" + d)[..4] == y
    ensures (y + "-" + m + "-" + d)[5..7] == m
    ensures (y + "-" + m + "-" + d)[8..] == d
  {
    var s := y + "-" + m + "-" + d;
    assert s[..4] == y;
    assert s[5..7] == m;
    assert s[8..] == d;
  }

  /** The shaped clock reads back as the event's hour and minute. */
  lemma {:induction false} ClockReadsBack(hour: nat, minute: nat)
    requires hour < 24 && minute < 60
    ensures var s := Clock(hour, minute);
      DigitsValue(s[..2]) == hour && DigitsValue(s[3..]) == minute
  {
    var s := Clock(hour, minute);
    assert Pow10(2) == 100 by {
      assert Pow10(1) == 10;
    }
    PadDigitsRoundTrip(hour, 2);
    PadDigitsRoundTrip(minute, 2);
    assert s[..2] == PadDigits(hour, 2);
    assert s[3..] == PadDigits(minute, 2);
  }

  // ---- get_dashboard_stats: the absent count ----

  /** `COUNT(DISTINCT employee_id)` over today's checkins. */
  function CheckedInIds(rows: seq<AttendanceRow>, today: Date): set<int> {
    set r | r in rows && r.checkTime.date == today && r.checkType == CheckIn :: r.employeeId
  }

  function EmployeeIds(employees: seq<Employee>): set<int> {
    set e | e in employees :: e.id
  }

  /** `absent_today = total_employees - present_today` */
  function AbsentToday(employees: seq<Employee>, rows: seq<AttendanceRow>, today: Date): (absent: int)
    ensures absent <= |employees|
    ensures (forall r :: r in rows ==> r.checkTime.date != today || r.checkType != CheckIn) ==> absent == |employees|
  {
    |employees| - |CheckedInIds(rows, today)|
  }

  lemma {:induction false} DistinctIdsCount(employees: seq<Employee>)
    requires DistinctIds(employees)
    ensures |EmployeeIds(employees)| == |employees|
  {
    if employees != [] {
      DistinctIdsTail(employees);
      DistinctIdsCount(employees[1..]);
      EmployeeIdsCons(employees);
    }
  }

  lemma DistinctIdsTail(employees: seq<Employee>)
    requires employees != [] && DistinctIds(employees)
    ensures DistinctIds(employees[1..])
  {
    var rest := employees[1..];
    forall i, j | 0 <= i < j < |rest|
      ensures rest[i].id != rest[j].id
    {
      assert rest[i] == employees[i + 1] && rest[j] == employees[j + 1];
    }
  }

  /** The ids of a non-empty list: the first id, new when ids are distinct, and the ids of the rest. */
  lemma EmployeeIdsCons(employees: seq<Employee>)
    requires employees != []
    ensures EmployeeIds(employees) == {employees[0].id} + EmployeeIds(employees[1..])
    ensures DistinctIds(employees) ==> employees[0].id !in EmployeeIds(employees[1..])
  {
    var rest := employees[1..];
    var x := employees[0].id;
    forall y | y in EmployeeIds(employees)
      ensures y in {x} + EmployeeIds(rest)
    {
      var e :| e in employees && e.id == y;
      var j :| 0 <= j < |employees| && employees[j] == e;
      if j > 0 {
        assert rest[j - 1] == e;
      }
    }
    forall y | y in EmployeeIds(rest)
      ensures y in EmployeeIds(employees)
    {
      var e :| e in rest && e.id == y;
      assert e in employees;
    }
    if DistinctIds(employees) {
      forall e | e in rest
        ensures e.id != x
      {
        var j :| 0 <= j < |rest| && rest[j] == e;
        assert employees[j + 1] == e;
      }
    }
  }

  /**
   * When every employee id is distinct and every checkin today belongs to
   * an existing employee, the absent count is the number of employees
   * without a checkin today, between 0 and the total.
   */
  lemma AbsentIsEmployeesWithoutCheckin(employees: seq<Employee>, rows: seq<AttendanceRow>, today: Date)
    requires DistinctIds(employees)
    requires CheckedInIds(rows, today) <= EmployeeIds(employees)
    ensures AbsentToday(employees, rows, today) == |EmployeeIds(employees) - CheckedInIds(rows, today)|
    ensures 0 <= AbsentToday(employees, rows, today) <= |employees|
  {
    var all := EmployeeIds(employees);
    var present := CheckedInIds(rows, today);
    DistinctIdsCount(employees);
    assert all == (all - present) + present;
    assert (all - present) * present == {};
  }

  /** A checkin today by an id that is not an employee drives the count below zero. */
  lemma AbsentCanBeNegative(r: AttendanceRow, today: Date)
    requires r.checkTime.date == today && r.checkType == CheckIn
    ensures AbsentToday([], [r], today) == -1
  {
    assert CheckedInIds([r], today) == {r.employeeId};
  }

  // ---- add_employee and register ----

  /** An uploaded image: its file name and the first face's embedding, if a face was found. */
  datatype Upload = Upload(filename: string, embedding: Option<Embedding>)

  datatype AddEmployeeReply = MissingFields | DuplicateCode | EmployeeAdded(employeeId: int) {
    function HttpCode(): int {
      if EmployeeAdded? then 200 else 400
    }
  }

  predicate CodeTaken(employees: seq<Employee>, code: string) {
    exists i :: 0 <= i < |employees| && employees[i].code == code
  }

  /**
   * add_employee: all five fields must be given, the code must be new; then
   * one employee row with the next id, and, for an allowed image in which a
   * face was found, one face row stored under the sanitised
   * "<code>_<filename>" (`secureFilename` is werkzeug's secure_filename).
   * A failing add_face stores nothing and the reply is still a success.
   */
  method AddEmployee(db: FaceDatabase, code: Option<string>, name: Option<string>, email: Option<string>,
                     phone: Option<string>, position: Option<string>, upload: Option<Upload>,
                     secureFilename: string -> string, faceFault: bool)
    returns (reply: AddEmployeeReply)
    requires db.Valid()
    modifies db`employees, db`nextEmployeeId, db`faces
    ensures db.Valid()
    ensures !(Truthy(code) && Truthy(name) && Truthy(email) && Truthy(phone) && Truthy(position)) ==>
      reply == MissingFields && unchanged(db`employees, db`nextEmployeeId, db`faces)
    ensures Truthy(code) && Truthy(name) && Truthy(email) && Truthy(phone) && Truthy(position) ==>
      if CodeTaken(old(db.employees), code.value) then
        reply == DuplicateCode && unchanged(db`employees, db`nextEmployeeId, db`faces)
      else
        var id := old(db.nextEmployeeId);
        && reply == EmployeeAdded(id)
        && db.employees == old(db.employees) + [Employee(id, code.value, name.value, email.value, phone.value, position.value)]
        && db.nextEmployeeId == id + 1
        && db.faces == old(db.faces) +
             if upload.Some? && AllowedFile(upload.value.filename) && upload.value.embedding.Some? && !faceFault
             then [FaceRow(id, code.value, upload.value.embedding.value, Some(secureFilename(code.value + "_" + upload.value.filename)))]
             else []
  {
    if !(Truthy(code) && Truthy(name) && Truthy(email) && Truthy(phone) && Truthy(position)) {
      return MissingFields;
    }
    if CodeTaken(db.employees, code.value) {
      return DuplicateCode;
    }
    var id := db.nextEmployeeId;
    var e := Employee(id, code.value, name.value, email.value, phone.value, position.value);
    EmployeeKeysAppend(db.employees, id, e);
    db.employees := db.employees + [e];
    db.nextEmployeeId := id + 1;
    if upload.Some? && AllowedFile(upload.value.filename) && upload.value.embedding.Some? {
      db.AddFace(id, code.value, upload.value.embedding.value,
                 Some(secureFilename(code.value + "_" + upload.value.filename)), faceFault);
    }
    reply := EmployeeAdded(id);
  }

  datatype RegisterReply = MissingCredentials | UsernameTaken | Registered(adminId: int) {
    function HttpCode(): int {
      if Registered? then 201 else 400
    }
  }

  predicate UsernameTakenIn(admins: seq<AdminRow>, username: string) {
    exists i :: 0 <= i < |admins| && admins[i].username == username
  }

  /**
   * register: username and password must be given and the username new;
   * then one admin row with the next id and the bcrypt hash of the
   * password (`passwordHash`, salted outside the model).
   */
  method Register(db: FaceDatabase, username: Option<string>, password: Option<string>, passwordHash: string)
    returns (reply: RegisterReply)
    requires db.Valid()
    modifies db`admins, db`nextAdminId
    ensures db.Valid()
    ensures !(Truthy(username) && Truthy(password)) ==>
      reply == MissingCredentials && unchanged(db`admins, db`nextAdminId)
    ensures Truthy(username) && Truthy(password) ==>
      if UsernameTakenIn(old(db.admins), username.value) then
        reply == UsernameTaken && unchanged(db`admins, db`nextAdminId)
      else
        && reply == Registered(old(db.nextAdminId))
        && db.admins == old(db.admins) + [AdminRow(old(db.nextAdminId), username.value, passwordHash)]
        && db.nextAdminId == old(db.nextAdminId) + 1
  {
    if !(Truthy(username) && Truthy(password)) {
      return MissingCredentials;
    }
    if UsernameTakenIn(db.admins, username.value) {
      return UsernameTaken;
    }
    var id := db.nextAdminId;
    AdminKeysAppend(db.admins, id, AdminRow(id, username.value, passwordHash));
    db.admins := db.admins + [AdminRow(id, username.value, passwordHash)];
    db.nextAdminId := id + 1;
    reply := Registered(id);
  }
}
