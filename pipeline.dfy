/**
 * The recognition endpoint (routes/user.py, `recognize`): liveness first,
 * then the recognizer, then the attendance state machine. The detector,
 * the embedding network and the liveness network are outside the model:
 * their verdicts arrive as inputs.
 */
module RecognitionEndpoint {
  import opened Wrappers
  import opened Text
  import opened Settings
  import opened Database
  import opened Recognition
  import opened UserAttendance

  /** One extracted face: the liveness network's verdict and the face's embedding. */
  datatype DetectedFace = DetectedFace(isReal: bool, embedding: Embedding)

  /** A decoded frame: how many boxes the detector found and the faces it could extract from them. */
  datatype Frame = Frame(boxCount: nat, faces: seq<DetectedFace>)

  /** The endpoint's JSON reply; Ok's code is the recognizer's second slot, the employee name. */
  datatype Reply =
    | NoImage
    | NoFace
    | Fake
    | UnknownFace
    | Ok(employeeCode: string, checkType: string, clock: string)
    | NoResult
  {
    /** The reply's `status` field. */
    function Status(): string {
      match this
      case NoImage => "error"
      case NoFace => "no_face"
      case Fake => "fake"
      case UnknownFace => "unknown"
      case Ok(_, _, _) => "ok"
      case NoResult => "error"
    }

    function HttpCode(): int {
      if NoImage? then 400 else 200
    }
  }

  /**
   * Database errors, one flag per query the endpoint makes. The connection
   * is not in autocommit mode and the next-type lookup catches its error
   * without a rollback, so a failed lookup leaves the transaction aborted:
   * log_attendance's first query then fails as well and nothing is written.
   */
  datatype Faults = Faults(search: bool, lookup: bool, log: bool)

  /** The reply and the attendance log after one request, as a function of the tables before it. */
  function Respond(faces: seq<FaceRow>, employees: seq<Employee>, rows: seq<AttendanceRow>,
                   image: Option<Frame>, now: Instant, cfg: Config, threshold: real, dist: Distance,
                   faults: Faults): (r: (Reply, seq<AttendanceRow>))
    requires now.Valid()
    ensures rows <= r.1 && |r.1| <= |rows| + 1
    ensures r.1 != rows ==> r.0.Ok?
    ensures r.0.HttpCode() == 400 <==> image.None?
  {
    if image.None? then (NoImage, rows)
    else if image.value.boxCount == 0 then (NoFace, rows)
    else if image.value.faces == [] then (NoResult, rows)
    else
      var face := image.value.faces[0];
      if !face.isReal then (Fake, rows)
      else
        var m := Outcome(faces, employees, Some(face.embedding), threshold, dist, faults.search);
        if m.name == Unknown || m.employeeId.None? then (UnknownFace, rows)
        else
          var id := m.employeeId.value;
          var t := NextCheckType(if faults.lookup then None else TypeOf(LatestOn(rows, id, now.date)));
          var after := if faults.lookup || faults.log then rows else LogStep(rows, id, m.name, t, None, now, cfg);
          (Ok(m.name, t, Clock(now.hour, now.minute)), after)
  }

  /**
   * recognize: only the first face is ever looked at, since every branch
   * of the loop body returns; the result of log_attendance is ignored.
   */
  method Recognize(db: FaceDatabase, recognizer: FaceRecognizer, image: Option<Frame>, now: Instant,
                   cfg: Config, dist: Distance, faults: Faults) returns (reply: Reply)
    requires recognizer.database == db
    requires now.Valid()
    modifies db`attendance
    ensures (reply, db.attendance)
            == Respond(db.faces, db.employees, old(db.attendance), image, now, cfg, recognizer.threshold, dist, faults)
    ensures image.Some? && image.value.boxCount > 0 && image.value.faces != [] && image.value.faces[0].isReal ==>
      var m := Outcome(db.faces, db.employees, Some(image.value.faces[0].embedding), recognizer.threshold, dist, faults.search);
      && (m.employeeId.None? || m.name == Unknown ==> reply == UnknownFace && db.attendance == old(db.attendance))
      && (m.employeeId.Some? && m.name != Unknown && !faults.lookup && !faults.log ==>
            && reply == Ok(m.name, NextCheckType(TypeOf(LatestOn(old(db.attendance), m.employeeId.value, now.date))), Clock(now.hour, now.minute))
            && db.attendance == RecognizedStep(old(db.attendance), m.employeeId.value, m.name, now, cfg))
    ensures OnePerSlot(old(db.attendance)) ==> OnePerSlot(db.attendance)
  {
    if image.None? {
      return NoImage;
    }
    var frame := image.value;
    if frame.boxCount == 0 {
      return NoFace;
    }
    var n := if frame.boxCount < |frame.faces| then frame.boxCount else |frame.faces|;
    for i := 0 to n
      invariant i == 0
      invariant db.attendance == old(db.attendance)
    {
      var face := frame.faces[i];
      if !face.isReal {
        return Fake;
      }
      var m := recognizer.Recognize(Some(face.embedding), dist, faults.search);
      if m.name == Unknown || m.employeeId.None? {
        return UnknownFace;
      }
      var t := GetNextCheckType(db, m.employeeId.value, now.date, faults.lookup);
      var _ := LogAttendance(db, m.employeeId.value, m.name, t, None, now, cfg, faults.lookup || faults.log);
      return Ok(m.name, t, Clock(now.hour, now.minute));
    }
    return NoResult;
  }

  // ---- what the ordering guarantees ----

  /** A face the liveness network rejects is answered `fake` and writes nothing, whatever its embedding. */
  lemma SpoofWritesNothing(faces: seq<FaceRow>, employees: seq<Employee>, rows: seq<AttendanceRow>,
                           frame: Frame, now: Instant, cfg: Config, threshold: real, dist: Distance, faults: Faults)
    requires now.Valid() && frame.boxCount > 0 && frame.faces != [] && !frame.faces[0].isReal
    ensures Respond(faces, employees, rows, Some(frame), now, cfg, threshold, dist, faults) == (Fake, rows)
  {
  }

  /**
   * The log changes only on an `ok` reply for a live first face that the
   * recognizer matched, and then by exactly one row for that employee:
   * the type chosen from the log, the punctuality status at `now`, and in
   * the employee_code column the matched employee's NAME.
   */
  lemma {:induction false} WritesOnlyForMatchedLiveFace(faces: seq<FaceRow>, employees: seq<Employee>, rows: seq<AttendanceRow>,
                                    image: Option<Frame>, now: Instant, cfg: Config, threshold: real, dist: Distance,
                                    faults: Faults)
    requires now.Valid()
    requires Respond(faces, employees, rows, image, now, cfg, threshold, dist, faults).1 != rows
    ensures image.Some? && image.value.faces != [] && image.value.faces[0].isReal
    ensures !faults.lookup && !faults.log
    ensures Respond(faces, employees, rows, image, now, cfg, threshold, dist, faults).0.Ok?
    ensures exists e, f, t :: (e in employees && f in faces && f.employeeId == e.id
      && dist(f.embedding, image.value.faces[0].embedding) <= threshold
      && (t == CheckIn || t == CheckOut)
      && Respond(faces, employees, rows, image, now, cfg, threshold, dist, faults).1
         == rows + [NewRow(e.id, e.name, t, None, now, cfg)])
  {
    var embedding := image.value.faces[0].embedding;
    var m := Outcome(faces, employees, Some(embedding), threshold, dist, faults.search);
    MatchNamesEnrolledEmployee(faces, employees, embedding, threshold, dist, faults.search);
    var e, f :| e in employees && f in faces && f.employeeId == e.id
        && dist(f.embedding, embedding) <= threshold
        && m.employeeId == Some(e.id) && m.name == e.name;
    var t := NextCheckType(if faults.lookup then None else TypeOf(LatestOn(rows, e.id, now.date)));
    assert Respond(faces, employees, rows, image, now, cfg, threshold, dist, faults).1
           == rows + [NewRow(e.id, e.name, t, None, now, cfg)];
  }

  /**
   * The reply is `ok` exactly when there is a first face, it is live, and
   * the recognizer matched it to an employee not named "Unknown": whether
   * log_attendance stored a row, refused a duplicate or failed has no
   * bearing on it.
   */
  lemma OkIgnoresLogOutcome(faces: seq<FaceRow>, employees: seq<Employee>, rows: seq<AttendanceRow>,
                            rows': seq<AttendanceRow>, image: Option<Frame>, now: Instant, cfg: Config,
                            threshold: real, dist: Distance, faults: Faults, faults': Faults)
    requires now.Valid() && faults.search == faults'.search
    ensures Respond(faces, employees, rows, image, now, cfg, threshold, dist, faults).0.Ok?
        <==> Respond(faces, employees, rows', image, now, cfg, threshold, dist, faults').0.Ok?
    ensures Respond(faces, employees, rows, image, now, cfg, threshold, dist, faults).0.Ok? <==>
      && image.Some? && image.value.boxCount > 0 && image.value.faces != [] && image.value.faces[0].isReal
      && var m := Outcome(faces, employees, Some(image.value.faces[0].embedding), threshold, dist, faults.search);
         m.employeeId.Some? && m.name != Unknown
  {
  }

  /**
   * A live first face: answered `unknown` with nothing written when the
   * recognizer names nobody (or "Unknown"); otherwise, with a working
   * lookup and log, answered `ok` with the type chosen from the day's
   * latest event, and logged by one recognition step.
   */
  lemma LiveFaceReply(faces: seq<FaceRow>, employees: seq<Employee>, rows: seq<AttendanceRow>,
                      frame: Frame, now: Instant, cfg: Config, threshold: real, dist: Distance, faults: Faults)
    requires now.Valid() && frame.boxCount > 0 && frame.faces != [] && frame.faces[0].isReal
    ensures
      var m := Outcome(faces, employees, Some(frame.faces[0].embedding), threshold, dist, faults.search);
      var r := Respond(faces, employees, rows, Some(frame), now, cfg, threshold, dist, faults);
      && (m.employeeId.None? || m.name == Unknown ==> r == (UnknownFace, rows))
      && (m.employeeId.Some? && m.name != Unknown && !faults.lookup && !faults.log ==>
            r == (Ok(m.name, NextCheckType(TypeOf(LatestOn(rows, m.employeeId.value, now.date))), Clock(now.hour, now.minute)),
                  RecognizedStep(rows, m.employeeId.value, m.name, now, cfg)))
  {
  }

  /**
   * Three fault-free requests on one day with the same matched live face,
   * starting from a day without events for that employee: the first is
   * answered checkin and logged, the second checkout and logged, and the
   * third is answered `ok` but stores nothing.
   */
  lemma {:induction false} RespondDayCycle(faces: seq<FaceRow>, employees: seq<Employee>, rows: seq<AttendanceRow>,
                                           frame: Frame, now1: Instant, now2: Instant, now3: Instant, cfg: Config,
                                           threshold: real, dist: Distance)
    requires now1.Valid() && now2.Valid() && now3.Valid()
    requires now2.date == now1.date && now3.date == now1.date
    requires frame.boxCount > 0 && frame.faces != [] && frame.faces[0].isReal
    requires
      var m := Outcome(faces, employees, Some(frame.faces[0].embedding), threshold, dist, false);
      m.employeeId.Some? && m.name != Unknown
      && forall i :: 0 <= i < |rows| ==> !OfDay(rows[i], m.employeeId.value, now1.date)
    ensures
      var m := Outcome(faces, employees, Some(frame.faces[0].embedding), threshold, dist, false);
      var id := m.employeeId.value;
      var ok := Faults(false, false, false);
      var s1 := Respond(faces, employees, rows, Some(frame), now1, cfg, threshold, dist, ok);
      var s2 := Respond(faces, employees, s1.1, Some(frame), now2, cfg, threshold, dist, ok);
      var s3 := Respond(faces, employees, s2.1, Some(frame), now3, cfg, threshold, dist, ok);
      && s1 == (Ok(m.name, CheckIn, Clock(now1.hour, now1.minute)), rows + [NewRow(id, m.name, CheckIn, None, now1, cfg)])
      && s2 == (Ok(m.name, CheckOut, Clock(now2.hour, now2.minute)), s1.1 + [NewRow(id, m.name, CheckOut, None, now2, cfg)])
      && s3.0.Ok? && s3.1 == s2.1
  {
    var m := Outcome(faces, employees, Some(frame.faces[0].embedding), threshold, dist, false);
    var id := m.employeeId.value;
    var ok := Faults(false, false, false);
    LiveFaceReply(faces, employees, rows, frame, now1, cfg, threshold, dist, ok);
    FirstOfDayChecksIn(rows, id, m.name, now1, cfg);
    var r1 := rows + [NewRow(id, m.name, CheckIn, None, now1, cfg)];
    LiveFaceReply(faces, employees, r1, frame, now2, cfg, threshold, dist, ok);
    CheckoutFollowsCheckin(r1, id, m.name, now2, cfg);
    var r2 := r1 + [NewRow(id, m.name, CheckOut, None, now2, cfg)];
    LiveFaceReply(faces, employees, r2, frame, now3, cfg, threshold, dist, ok);
    CompletedDayIsTerminal(r2, id, m.name, now3, cfg);
  }

  /**
   * A failed next-type lookup writes nothing, since the aborted transaction
   * makes log_attendance fail; the reply is still `ok` with a checkin.
   */
  lemma FailedLookupWritesNothing(faces: seq<FaceRow>, employees: seq<Employee>, rows: seq<AttendanceRow>,
                                  image: Option<Frame>, now: Instant, cfg: Config, threshold: real, dist: Distance,
                                  faults: Faults)
    requires now.Valid() && faults.lookup
    ensures Respond(faces, employees, rows, image, now, cfg, threshold, dist, faults).1 == rows
    ensures Respond(faces, employees, rows, image, now, cfg, threshold, dist, faults).0.Ok? ==>
      Respond(faces, employees, rows, image, now, cfg, threshold, dist, faults).0.checkType == CheckIn
  {
  }

  /** An employee whose name is "Unknown" is answered `unknown` even when matched, and never logged. */
  lemma EmployeeNamedUnknownIsNeverLogged(e: Employee, f: FaceRow, rows: seq<AttendanceRow>, frame: Frame,
                                          now: Instant, cfg: Config, threshold: real, dist: Distance, faults: Faults)
    requires now.Valid() && e.name == Unknown && f.employeeId == e.id
    requires frame.boxCount > 0 && frame.faces != [] && frame.faces[0].isReal
    ensures Respond([f], [e], rows, Some(frame), now, cfg, threshold, dist, faults) == (UnknownFace, rows)
  {
    var q := frame.faces[0].embedding;
    var row := JoinedRow(f, e, q, dist);
    assert JoinOne(f, [e], q, dist) == [row] + JoinOne(f, [], q, dist);
    assert Joined([f], [e], q, dist) == [row] + Joined([], [e], q, dist);
    assert SortByDistance([row]) == Insert(row, SortByDistance([]));
    assert Nearest([row], 1) == [row];
  }

  /** Only the first extracted face decides the reply and the write; the others are never examined. */
  lemma OnlyFirstFaceMatters(faces: seq<FaceRow>, employees: seq<Employee>, rows: seq<AttendanceRow>,
                             frame: Frame, now: Instant, cfg: Config, threshold: real, dist: Distance, faults: Faults)
    requires now.Valid() && frame.faces != []
    ensures Respond(faces, employees, rows, Some(frame), now, cfg, threshold, dist, faults)
         == Respond(faces, employees, rows, Some(frame.(faces := frame.faces[..1])), now, cfg, threshold, dist, faults)
  {
  }

  /** Every request keeps at most one event per (employee, day, type). */
  lemma RespondKeepsOnePerSlot(faces: seq<FaceRow>, employees: seq<Employee>, rows: seq<AttendanceRow>,
                               image: Option<Frame>, now: Instant, cfg: Config, threshold: real, dist: Distance,
                               faults: Faults)
    requires now.Valid() && OnePerSlot(rows)
    ensures OnePerSlot(Respond(faces, employees, rows, image, now, cfg, threshold, dist, faults).1)
  {
    if image.Some? && image.value.boxCount > 0 && image.value.faces != [] && image.value.faces[0].isReal {
      var m := Outcome(faces, employees, Some(image.value.faces[0].embedding), threshold, dist, faults.search);
      if m.employeeId.Some? {
        var id := m.employeeId.value;
        var t := NextCheckType(if faults.lookup then None else TypeOf(LatestOn(rows, id, now.date)));
        LogStepKeepsOnePerSlot(rows, id, m.name, t, None, now, cfg);
      }
    }
  }
}
