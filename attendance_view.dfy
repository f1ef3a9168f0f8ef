/**
 * The attendance history page (static/js/attendance.js): the status badge
 * map, the work-hours column, the module-level `attendanceData` and the
 * record filter of the detail dialog. DOM writes are left out; the dialog is
 * returned as a value.
 */
module AttendanceView {
  import opened Wrappers
  import opened Text
  import opened Sequences
  import opened Settings
  import opened Database
  import opened UserAttendance
  import Admin

  // ---- mapStatus ----

  /** A status badge: its text and its CSS classes. */
  datatype Badge = Badge(name: string, cssClass: string)

  const UnknownLabel: string := "Không rõ"

  function MapStatus(status: Option<string>): Badge {
    if status == Some("present") then Badge("Đúng giờ", "bg-green-100 text-green-800")
    else if status == Some("late") then Badge("Đi muộn", "bg-yellow-100 text-yellow-800")
    else if status == Some("early") then Badge("Về sớm", "bg-purple-100 text-purple-800")
    else if status == Some("absent") then Badge("Vắng mặt", "bg-red-100 text-red-800")
    else Badge(UnknownLabel, "bg-gray-100 text-gray-800")
  }

  /** The four known statuses get four different labels, and only they escape the fallback. */
  lemma LabelDeterminesStatus(a: Option<string>, b: Option<string>)
    ensures MapStatus(a).name != UnknownLabel <==> a in {Some("present"), Some("late"), Some("early"), Some("absent")}
    ensures MapStatus(a).name == MapStatus(b).name && MapStatus(a).name != UnknownLabel ==> a == b
  {
  }

  /** Every status the recognition path writes for a checkin or checkout gets its own label. */
  lemma RecognitionStatusesAreLabelled(checkType: string, now: Instant, cfg: Config)
    requires checkType == CheckIn || checkType == CheckOut
    ensures MapStatus(Some(PunctualityStatus(checkType, now, cfg))).name != UnknownLabel
  {
  }

  /** The statuses the manual check-in writes are not among the known ones: both show as "Không rõ". */
  lemma ManualStatusesShowAsUnknown(checkType: string, now: Instant, cfg: Config)
    requires now.Valid() && cfg.CheckinHourValid()
    ensures MapStatus(Some(Admin.ManualStatus(checkType, now, cfg))).name == UnknownLabel
  {
    Admin.ManualLateIff(checkType, now, cfg);
  }

  // ---- calculateWorkHours ----

  /**
   * `Number(s)` for the texts a clock field can hold: "" is 0, a run of
   * decimal digits its value; anything else is NaN (None).
   */
  function JsNumber(s: string): Option<nat> {
    if s == "" then Some(0) else ParseNat(s)
  }

  /** `const [h, m] = s.split(':').map(Number)`; a missing second part is `Number(undefined)`, NaN. */
  function ClockParts(s: string): (Option<nat>, Option<nat>) {
    var h := BeforeFirst(s, ':');
    if |h| == |s| then (JsNumber(h), None)
    else (JsNumber(h), JsNumber(BeforeFirst(s[|h| + 1..], ':')))
  }

  /**
   * calculateWorkHours: '' for a missing time or a non-positive span;
   * "NaNh NaNm" when a part is not a number; otherwise whole hours and the
   * remaining minutes of the span between the two clock times.
   */
  function WorkHours(checkin: Option<string>, checkout: Option<string>): (r: string)
    ensures !Truthy(checkin) || !Truthy(checkout) ==> r == ""
  {
    if !Truthy(checkin) || !Truthy(checkout) then ""
    else
      var (hIn, mIn) := ClockParts(checkin.value);
      var (hOut, mOut) := ClockParts(checkout.value);
      if hIn.None? || mIn.None? || hOut.None? || mOut.None? then "NaNh NaNm"
      else
        var span := (hOut.value * 60 + mOut.value) - (hIn.value * 60 + mIn.value);
        if span <= 0 then "" else NatToString(span / 60) + "h " + NatToString(span % 60) + "m"
  }

  /** Splitting a strftime("%H:%M") text gives back its hour and minute. */
  lemma {:induction false} ClockPartsOfClock(hour: nat, minute: nat)
    requires hour < 100 && minute < 100
    ensures ClockParts(Clock(hour, minute)) == (Some(hour), Some(minute))
  {
    var p, q := PadDigits(hour, 2), PadDigits(minute, 2);
    assert Pow10(2) == 100 by {
      assert Pow10(1) == 10;
    }
    PadDigitsRoundTrip(hour, 2);
    PadDigitsRoundTrip(minute, 2);
    assert ':' !in p by {
      assert !IsDigit(':');
    }
    assert ':' !in q by {
      assert !IsDigit(':');
    }
    assert Clock(hour, minute) == p + [':'] + q;
    BeforeFirstPrefix(p, ':', q);
    assert Clock(hour, minute)[|p| + 1..] == q;
  }

  /**
   * For two clock texts the result is '' exactly when the checkout is not
   * after the checkin, and otherwise "Hh Mm" with H·60 + M the span in
   * minutes and M below 60.
   */
  lemma WorkHoursOfClocks(hIn: nat, mIn: nat, hOut: nat, mOut: nat)
    requires hIn < 24 && mIn < 60 && hOut < 24 && mOut < 60
    ensures var span := (hOut * 60 + mOut) - (hIn * 60 + mIn);
      var r := WorkHours(Some(Clock(hIn, mIn)), Some(Clock(hOut, mOut)));
      && (r == "" <==> span <= 0)
      && (span > 0 ==> exists h: nat, m: nat :: (m < 60 && h * 60 + m == span
                         && r == NatToString(h) + "h " + NatToString(m) + "m"))
  {
    ClockPartsOfClock(hIn, mIn);
    ClockPartsOfClock(hOut, mOut);
    var span := (hOut * 60 + mOut) - (hIn * 60 + mIn);
    if span > 0 {
      var h: nat, m: nat := span / 60, span % 60;
      assert h * 60 + m == span;
    }
  }

  // ---- the records the page holds ----

  /**
   * An element of `attendanceData` as the browser sees it; None is a
   * missing property (undefined) or null.
   */
  datatype JsRecord = JsRecord(
    employeeCode: string,
    employeeName: Option<string>,
    date: Option<string>,
    checkinTime: Option<string>,
    checkoutTime: Option<string>,
    status: Option<string>,
    checkTime: Option<string>,
    checkType: Option<string>,
    workStatus: Option<string>)

  /** The JSON object get_attendance sends, as received: it has no check_time, check_type or work_status. */
  function ToJs(r: Admin.ShapedRow): JsRecord {
    JsRecord(r.employeeCode, r.employeeName, r.date, r.checkinTime, r.checkoutTime, Some(r.status), None, None, None)
  }

  /** The work-hours column of the table is always empty: no shaped row has both times. */
  lemma TableNeverShowsWorkHours(r: Admin.QueryRow)
    requires r.checkTime.Some? ==> r.checkTime.value.Valid()
    ensures WorkHours(ToJs(Admin.ShapeRow(r)).checkinTime, ToJs(Admin.ShapeRow(r)).checkoutTime) == ""
  {
    Admin.ShapedRowHasAtMostOneTime(r);
  }

  // ---- showAttendanceDetail ----

  /** The record filter's predicate, once check_time is known to be there. */
  predicate Wanted(r: JsRecord, employeeCode: string, date: string) {
    r.employeeCode == employeeCode && r.checkTime.Some? && BeforeFirst(r.checkTime.value, 'T') == date
  }

  /**
   * `attendanceData.filter(...)`. The predicate reads `check_time.split`
   * only after the code matched; on a matching record without check_time
   * it throws a TypeError (None).
   */
  function DetailRecords(records: seq<JsRecord>, employeeCode: string, date: string): (r: Option<seq<JsRecord>>)
    ensures r.None? <==> exists i :: 0 <= i < |records| && records[i].employeeCode == employeeCode && records[i].checkTime.None?
    ensures r.Some? ==> Subsequence(r.value, records)
    ensures r.Some? ==> forall x :: x in r.value ==> Wanted(x, employeeCode, date)
    ensures r.Some? ==> forall x :: Wanted(x, employeeCode, date) ==> multiset(r.value)[x] == multiset(records)[x]
  {
    if records == [] then Some([])
    else
      var x := records[0];
      var rest := DetailRecords(records[1..], employeeCode, date);
      assert records == [x] + records[1..];
      ThrowingRecordOfTail(records, employeeCode);
      if x.employeeCode != employeeCode then
        (if rest.Some? then assert Subsequence(rest.value, records); rest else rest)
      else if x.checkTime.None? then None
      else if rest.None? then None
      else if BeforeFirst(x.checkTime.value, 'T') == date then
        assert ([x] + rest.value)[1..] == rest.value;
        Some([x] + rest.value)
      else
        assert Subsequence(rest.value, records);
        Some(rest.value)
  }

  /** A record with the code and without check_time is the first record or one of the rest. */
  lemma ThrowingRecordOfTail(records: seq<JsRecord>, employeeCode: string)
    requires records != []
    ensures (exists i :: 0 <= i < |records| && records[i].employeeCode == employeeCode && records[i].checkTime.None?)
      <==> (records[0].employeeCode == employeeCode && records[0].checkTime.None?)
           || (exists i :: 0 <= i < |records[1..]| && records[1..][i].employeeCode == employeeCode && records[1..][i].checkTime.None?)
  {
    if exists i :: 0 <= i < |records| && records[i].employeeCode == employeeCode && records[i].checkTime.None? {
      var i :| 0 <= i < |records| && records[i].employeeCode == employeeCode && records[i].checkTime.None?;
      if i > 0 {
        assert records[1..][i - 1] == records[i];
      }
    }
    if exists i :: 0 <= i < |records[1..]| && records[1..][i].employeeCode == employeeCode && records[1..][i].checkTime.None? {
      var i :| 0 <= i < |records[1..]| && records[1..][i].employeeCode == employeeCode && records[1..][i].checkTime.None?;
      assert records[i + 1] == records[1..][i];
    }
  }

  /** One line of the detail dialog: the event kind and its status badge. */
  datatype DetailLine = DetailLine(kind: string, badge: Badge)

  function LineOf(r: JsRecord): DetailLine {
    DetailLine(if r.checkType == Some(CheckIn) then "Vào làm" else "Tan làm", MapStatus(r.workStatus))
  }

  /** What the detail dialog does: throw, do nothing, or show a title and one line per record. */
  datatype Detail = TypeError | NothingShown | Shown(title: string, lines: seq<DetailLine>)

  /**
   * The dialog for a list of records: it throws on a matching record
   * without check_time, shows nothing exactly when no record is wanted,
   * and otherwise shows one line per wanted record, in order, under the
   * first one's name, or the code when that name is empty or null.
   */
  function DetailOf(records: seq<JsRecord>, employeeCode: string, date: string): (d: Detail)
    ensures d.TypeError? <==> exists i :: 0 <= i < |records| && records[i].employeeCode == employeeCode && records[i].checkTime.None?
    ensures d.NothingShown? <==> !d.TypeError? && forall r :: r in records ==> !Wanted(r, employeeCode, date)
    ensures d.Shown? ==> 1 <= |d.lines| <= |records|
    ensures d.Shown? ==>
      var kept := DetailRecords(records, employeeCode, date);
      && kept.Some? && kept.value != [] && |d.lines| == |kept.value|
      && (forall i :: 0 <= i < |d.lines| ==> d.lines[i] == LineOf(kept.value[i]))
      && d.title == (if Truthy(kept.value[0].employeeName) then kept.value[0].employeeName.value else employeeCode)
  {
    match DetailRecords(records, employeeCode, date)
    case None => TypeError
    case Some(kept) =>
      if kept == [] then
        assert forall r :: r in records && Wanted(r, employeeCode, date) ==> multiset(records)[r] > 0;
        NothingShown
      else
        SubsequenceLength(kept, records);
        assert kept[0] in kept && Wanted(kept[0], employeeCode, date);
        assert multiset(records)[kept[0]] == multiset(kept)[kept[0]] > 0;
        var title := if Truthy(kept[0].employeeName) then kept[0].employeeName.value else employeeCode;
        Shown(title, seq(|kept|, i requires 0 <= i < |kept| => LineOf(kept[i])))
  }

  class AttendancePage {
    var attendanceData: seq<JsRecord>

    constructor ()
      ensures attendanceData == []
    {
      attendanceData := [];
    }

    /** loadAttendance: on a successful reply the page keeps the received rows; otherwise the old ones stay. */
    method Load(success: bool, data: seq<Admin.ShapedRow>)
      modifies this`attendanceData
      ensures attendanceData == if success then seq(|data|, i requires 0 <= i < |data| => ToJs(data[i]))
                                else old(attendanceData)
    {
      if success {
        attendanceData := seq(|data|, i requires 0 <= i < |data| => ToJs(data[i]));
      }
    }

    /**
     * showAttendanceDetail: filter, stop on an empty result, otherwise
     * build the dialog line by line (the `forEach` that appends to
     * `detailHtml`). The page's data is not changed.
     */
    method ShowDetail(employeeCode: string, date: string) returns (detail: Detail)
      ensures detail == DetailOf(attendanceData, employeeCode, date)
    {
      var records := DetailRecords(attendanceData, employeeCode, date);
      if records.None? {
        return TypeError;
      }
      var kept := records.value;
      if |kept| == 0 {
        return NothingShown;
      }
      var title := if Truthy(kept[0].employeeName) then kept[0].employeeName.value else employeeCode;
      var lines: seq<DetailLine> := [];
      for i := 0 to |kept|
        invariant |lines| == i
        invariant forall j :: 0 <= j < i ==> lines[j] == LineOf(kept[j])
      {
        lines := lines + [LineOf(kept[i])];
      }
      assert lines == seq(|kept|, i requires 0 <= i < |kept| => LineOf(kept[i]));
      detail := Shown(title, lines);
    }
  }

  /**
   * On the rows get_attendance sends, the dialog never opens: a code that
   * matches some record throws, since no record has check_time, and a code
   * that matches none does nothing.
   */
  lemma {:induction false} DetailNeverOpensOnShapedRows(data: seq<Admin.ShapedRow>, employeeCode: string, date: string)
    ensures var records := seq(|data|, i requires 0 <= i < |data| => ToJs(data[i]));
      DetailOf(records, employeeCode, date)
      == if exists i :: 0 <= i < |data| && data[i].employeeCode == employeeCode then TypeError else NothingShown
  {
    var records := seq(|data|, i requires 0 <= i < |data| => ToJs(data[i]));
    var r := DetailRecords(records, employeeCode, date);
    if exists i :: 0 <= i < |data| && data[i].employeeCode == employeeCode {
      var i :| 0 <= i < |data| && data[i].employeeCode == employeeCode;
      assert records[i].employeeCode == employeeCode && records[i].checkTime.None?;
    } else {
      assert r.Some?;
      if r.value != [] {
        SubsequenceMembers(r.value, records, r.value[0]);
      }
    }
  }
}
