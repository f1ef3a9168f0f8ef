/**
 * The PostgreSQL database reached through FaceDatabase (modules/database.py).
 *
 * FaceDatabase owns the connection that the recognition endpoint also writes
 * attendance through, so the class holds every table the attendance engine
 * touches: employees, face_embeddings, attendance_logs and admins. Rows are
 * values; the tables are sequences in insertion order.
 */
module Database {
  import opened Wrappers

  /** A face embedding as produced by the embedding network. */
  type Embedding = seq<real>

  /** The cosine distance pgvector computes with `<=>`; supplied by the caller. */
  type Distance = (Embedding, Embedding) -> real

  datatype Date = Date(year: int, month: int, day: int)

  /** A Python `datetime`: calendar date, wall-clock time, microseconds. */
  datatype Instant = Instant(date: Date, hour: int, minute: int, second: int, micro: int) {

    /** The ranges `datetime` itself guarantees. */
    predicate Valid() {
      && 1 <= date.year <= 9999 && 1 <= date.month <= 12 && 1 <= date.day <= 31
      && 0 <= hour < 24 && 0 <= minute < 60 && 0 <= second < 60 && 0 <= micro < 1000000
    }

    /** Whole seconds since midnight. */
    function SecondOfDay(): int {
      (hour * 60 + minute) * 60 + second
    }

    /** Microseconds since midnight: the order of two instants on one day. */
    function MicroOfDay(): int {
      SecondOfDay() * 1000000 + micro
    }
  }

  /** A row of `employees`. */
  datatype Employee = Employee(id: int, code: string, name: string, email: string, phone: string, position: string)

  /** A row of `face_embeddings`. */
  datatype FaceRow = FaceRow(employeeId: int, employeeCode: string, embedding: Embedding, filename: Option<string>)

  /** A row of `attendance_logs`. */
  datatype AttendanceRow = AttendanceRow(
    employeeId: int,
    employeeCode: string,
    checkTime: Instant,
    checkType: string,
    imagePath: Option<string>,
    workStatus: string)

  /** A row of `admins`. */
  datatype AdminRow = AdminRow(id: int, username: string, passwordHash: string)

  /** A row of search_face's answer: e.id, e.name, f.employee_code, f.filename, distance. */
  datatype SearchRow = SearchRow(employeeId: int, name: string, employeeCode: string, filename: Option<string>, distance: real)

  // ---- the nearest-neighbour query, as a specification ----

  /** The answer row the join builds from one stored face and its employee. */
  function JoinedRow(f: FaceRow, e: Employee, query: Embedding, dist: Distance): SearchRow {
    SearchRow(e.id, e.name, f.employeeCode, f.filename, dist(f.embedding, query))
  }

  /** `r` is produced by the inner join of `faces` with `employees` on the employee id. */
  ghost predicate FromJoin(r: SearchRow, faces: seq<FaceRow>, employees: seq<Employee>, query: Embedding, dist: Distance) {
    exists i, j :: 0 <= i < |faces| && 0 <= j < |employees|
      && faces[i].employeeId == employees[j].id && r == JoinedRow(faces[i], employees[j], query, dist)
  }

  /** The join rows contributed by one stored face. */
  function JoinOne(f: FaceRow, employees: seq<Employee>, query: Embedding, dist: Distance): (r: seq<SearchRow>)
    ensures |r| <= |employees|
    ensures forall x :: x in r ==> x.employeeId == f.employeeId && x.distance == dist(f.embedding, query)
  {
    if employees == [] then []
    else
      (if employees[0].id == f.employeeId then [JoinedRow(f, employees[0], query, dist)] else [])
      + JoinOne(f, employees[1..], query, dist)
  }

  /** `FROM face_embeddings f JOIN employees e ON f.employee_id = e.id`, face by face. */
  function Joined(faces: seq<FaceRow>, employees: seq<Employee>, query: Embedding, dist: Distance): (r: seq<SearchRow>)
    ensures |r| <= |faces| * |employees|
  {
    if faces == [] then []
    else
      assert |faces| * |employees| == |employees| + (|faces| - 1) * |employees|;
      JoinOne(faces[0], employees, query, dist) + Joined(faces[1..], employees, query, dist)
  }

  lemma {:induction false} JoinOneMembership(f: FaceRow, employees: seq<Employee>, query: Embedding, dist: Distance, r: SearchRow)
    ensures r in JoinOne(f, employees, query, dist) <==>
      exists j :: 0 <= j < |employees| && employees[j].id == f.employeeId && r == JoinedRow(f, employees[j], query, dist)
  {
    if employees != [] {
      JoinOneMembership(f, employees[1..], query, dist, r);
      if r in JoinOne(f, employees[1..], query, dist) {
        var j :| 0 <= j < |employees[1..]| && employees[1..][j].id == f.employeeId && r == JoinedRow(f, employees[1..][j], query, dist);
        assert employees[j + 1] == employees[1..][j];
      }
      if exists j :: 0 <= j < |employees| && employees[j].id == f.employeeId && r == JoinedRow(f, employees[j], query, dist) {
        var j :| 0 <= j < |employees| && employees[j].id == f.employeeId && r == JoinedRow(f, employees[j], query, dist);
        if j > 0 {
          assert employees[1..][j - 1] == employees[j];
        }
      }
    }
  }

  /** The join yields exactly the rows of stored faces whose employee exists. */
  lemma {:induction false} JoinedMembership(faces: seq<FaceRow>, employees: seq<Employee>, query: Embedding, dist: Distance, r: SearchRow)
    ensures r in Joined(faces, employees, query, dist) <==> FromJoin(r, faces, employees, query, dist)
  {
    if faces != [] {
      JoinedMembership(faces[1..], employees, query, dist, r);
      JoinOneMembership(faces[0], employees, query, dist, r);
      if r in Joined(faces[1..], employees, query, dist) {
        var i, j :| 0 <= i < |faces[1..]| && 0 <= j < |employees|
          && faces[1..][i].employeeId == employees[j].id && r == JoinedRow(faces[1..][i], employees[j], query, dist);
        assert faces[i + 1] == faces[1..][i];
      }
      if FromJoin(r, faces, employees, query, dist) {
        var i, j :| 0 <= i < |faces| && 0 <= j < |employees|
          && faces[i].employeeId == employees[j].id && r == JoinedRow(faces[i], employees[j], query, dist);
        if i > 0 {
          assert faces[1..][i - 1] == faces[i];
        }
      }
    }
  }

  /** Non-decreasing distance: `ORDER BY distance ASC`. */
  predicate Sorted(s: seq<SearchRow>) {
    forall i, j :: 0 <= i < j < |s| ==> s[i].distance <= s[j].distance
  }

  /** Inserts `x` before the first row that is not closer than it. */
  function Insert(x: SearchRow, s: seq<SearchRow>): (r: seq<SearchRow>)
    requires Sorted(s)
    ensures Sorted(r)
    ensures multiset(r) == multiset(s) + multiset{x}
  {
    if s == [] then [x]
    else if x.distance <= s[0].distance then [x] + s
    else
      var rest := Insert(x, s[1..]);
      assert s == [s[0]] + s[1..];
      HeadBoundsInsertion(x, s, rest);
      [s[0]] + rest
  }

  /** The first row of a sorted list is no farther than any row of its tail with a farther row added. */
  lemma HeadBoundsInsertion(x: SearchRow, s: seq<SearchRow>, rest: seq<SearchRow>)
    requires Sorted(s) && s != [] && s[0].distance < x.distance
    requires multiset(rest) == multiset(s[1..]) + multiset{x}
    ensures forall k :: 0 <= k < |rest| ==> s[0].distance <= rest[k].distance
  {
    forall k | 0 <= k < |rest|
      ensures s[0].distance <= rest[k].distance
    {
      assert rest[k] in multiset(rest);
      if rest[k] != x {
        assert rest[k] in multiset(s[1..]);
        var m :| 0 <= m < |s[1..]| && s[1..][m] == rest[k];
        assert s[m + 1] == rest[k];
      }
    }
  }

  /** Insertion sort by distance; among equal distances the earlier row comes first. */
  function SortByDistance(s: seq<SearchRow>): (r: seq<SearchRow>)
    ensures Sorted(r)
    ensures multiset(r) == multiset(s)
  {
    if s == [] then []
    else
      assert s == [s[0]] + s[1..];
      Insert(s[0], SortByDistance(s[1..]))
  }

  /** `ORDER BY distance ASC LIMIT k` over the candidate rows. */
  function Nearest(candidates: seq<SearchRow>, k: nat): (r: seq<SearchRow>)
    ensures |r| == if k < |candidates| then k else |candidates|
    ensures Sorted(r)
    ensures forall x :: x in r ==> x in candidates
  {
    var sorted := SortByDistance(candidates);
    var n := if k < |sorted| then k else |sorted|;
    forall x | x in sorted[..n]
      ensures x in candidates
    {
      assert x in multiset(sorted);
    }
    sorted[..n]
  }

  /** The answer repeats no candidate more often than the candidates do. */
  lemma NearestIsSubMultiset(candidates: seq<SearchRow>, k: nat)
    ensures multiset(Nearest(candidates, k)) <= multiset(candidates)
  {
    var sorted := SortByDistance(candidates);
    var n := if k < |sorted| then k else |sorted|;
    assert sorted == sorted[..n] + sorted[n..];
    assert multiset(sorted) == multiset(sorted[..n]) + multiset(sorted[n..]);
  }

  /** In a sorted list, no row before position `n` is farther than a row from `n` on. */
  lemma SortedSplit(s: seq<SearchRow>, n: nat, x: SearchRow, y: SearchRow)
    requires Sorted(s) && n <= |s| && x in s[..n] && y in s[n..]
    ensures x.distance <= y.distance
  {
    var a :| 0 <= a < n && s[..n][a] == x;
    var b :| 0 <= b < |s| - n && s[n..][b] == y;
    assert s[a] == x && s[n + b] == y;
  }

  /** A row of `s` that the prefix does not account for lies in the rest. */
  lemma OutsidePrefixIsInSuffix(s: seq<SearchRow>, n: nat, y: SearchRow)
    requires n <= |s| && y in multiset(s) - multiset(s[..n])
    ensures y in s[n..]
  {
    assert s == s[..n] + s[n..];
    assert multiset(s) == multiset(s[..n]) + multiset(s[n..]);
    assert y in multiset(s[n..]);
  }

  /** No candidate left out of the answer is closer than any row in it. */
  lemma NearestIsClosest(candidates: seq<SearchRow>, k: nat, x: SearchRow, y: SearchRow)
    requires x in Nearest(candidates, k)
    requires y in multiset(candidates) - multiset(Nearest(candidates, k))
    ensures x.distance <= y.distance
  {
    var sorted := SortByDistance(candidates);
    var r := Nearest(candidates, k);
    assert r == sorted[..|r|];
    OutsidePrefixIsInSuffix(sorted, |r|, y);
    SortedSplit(sorted, |r|, x, y);
  }

  /** The first row of a non-empty answer is a nearest candidate. */
  lemma NearestHeadIsMinimum(candidates: seq<SearchRow>, k: nat, y: SearchRow)
    requires k >= 1 && y in candidates
    ensures Nearest(candidates, k) != []
    ensures Nearest(candidates, k)[0].distance <= y.distance
  {
    var r := Nearest(candidates, k);
    assert |r| >= 1;
    if y in multiset(r) {
      var b :| 0 <= b < |r| && r[b] == y;
    } else {
      assert y in multiset(candidates) - multiset(r);
      NearestIsClosest(candidates, k, r[0], y);
    }
  }

  /** The top-1 answer is empty only for no candidates, and otherwise a candidate no other candidate beats. */
  lemma TopIsNearest(candidates: seq<SearchRow>)
    ensures Nearest(candidates, 1) == [] <==> candidates == []
    ensures candidates != [] ==>
      && Nearest(candidates, 1)[0] in candidates
      && forall y :: y in candidates ==> Nearest(candidates, 1)[0].distance <= y.distance
  {
    if candidates != [] {
      var r := Nearest(candidates, 1);
      assert r[0] in multiset(r);
      forall y | y in candidates
        ensures r[0].distance <= y.distance
      {
        NearestHeadIsMinimum(candidates, 1, y);
      }
    }
  }

  // ---- the connection object ----

  /** No two employees share an id. */
  predicate DistinctIds(employees: seq<Employee>) {
    forall i, j :: 0 <= i < j < |employees| ==> employees[i].id != employees[j].id
  }

  /** Employee ids come from the serial and stay below it; ids and codes are unique. */
  predicate EmployeeKeys(employees: seq<Employee>, nextId: int) {
    && (forall i :: 0 <= i < |employees| ==> employees[i].id < nextId)
    && DistinctIds(employees)
    && (forall i, j :: 0 <= i < j < |employees| ==> employees[i].code != employees[j].code)
  }

  /** Admin ids come from the serial and stay below it; usernames are unique. */
  predicate AdminKeys(admins: seq<AdminRow>, nextId: int) {
    && (forall i :: 0 <= i < |admins| ==> admins[i].id < nextId)
    && (forall i, j :: 0 <= i < j < |admins| ==> admins[i].username != admins[j].username)
  }

  /** A row with the serial's next value and a new code keeps the keys, with the serial advanced. */
  lemma EmployeeKeysAppend(employees: seq<Employee>, nextId: int, e: Employee)
    requires EmployeeKeys(employees, nextId) && e.id == nextId
    requires forall i :: 0 <= i < |employees| ==> employees[i].code != e.code
    ensures EmployeeKeys(employees + [e], nextId + 1)
  {
    var s := employees + [e];
    forall i, j | 0 <= i < j < |s|
      ensures s[i].id != s[j].id && s[i].code != s[j].code
    {
      assert s[i] == employees[i];
    }
  }

  /** A row with the serial's next value and a new username keeps the keys, with the serial advanced. */
  lemma AdminKeysAppend(admins: seq<AdminRow>, nextId: int, a: AdminRow)
    requires AdminKeys(admins, nextId) && a.id == nextId
    requires forall i :: 0 <= i < |admins| ==> admins[i].username != a.username
    ensures AdminKeys(admins + [a], nextId + 1)
  {
    var s := admins + [a];
    forall i, j | 0 <= i < j < |s|
      ensures s[i].username != s[j].username
    {
      assert s[i] == admins[i];
    }
  }

  class FaceDatabase {
    var employees: seq<Employee>
    var faces: seq<FaceRow>
    var attendance: seq<AttendanceRow>
    var admins: seq<AdminRow>
    /** The next values of the `id` serial columns of `employees` and `admins`. */
    var nextEmployeeId: int
    var nextAdminId: int

    /** Ids come from the serial and stay below it; codes and usernames are unique. */
    ghost predicate Valid()
      reads this
    {
      EmployeeKeys(employees, nextEmployeeId) && AdminKeys(admins, nextAdminId)
    }

    /** Connects to a database whose tables are empty. */
    constructor ()
      ensures Valid()
      ensures employees == [] && faces == [] && attendance == [] && admins == []
    {
      employees, faces, attendance, admins := [], [], [], [];
      nextEmployeeId, nextAdminId := 1, 1;
    }

    /**
     * add_face: inserts one embedding row and commits; on any error
     * (`fault`) the transaction is rolled back and nothing is stored.
     * The caller is told nothing either way.
     */
    method AddFace(employeeId: int, employeeCode: string, embedding: Embedding, filename: Option<string>, fault: bool)
      modifies this`faces
      ensures faces == if fault then old(faces)
                       else old(faces) + [FaceRow(employeeId, employeeCode, embedding, filename)]
    {
      if !fault {
        faces := faces + [FaceRow(employeeId, employeeCode, embedding, filename)];
      }
    }

    /**
     * search_face: the `topK` stored faces nearest to `query` whose employee
     * exists, nearest first. A query error (`fault`, or a negative LIMIT,
     * which PostgreSQL rejects) yields the empty list.
     */
    method SearchFace(query: Embedding, topK: int, dist: Distance, fault: bool) returns (rows: seq<SearchRow>)
      ensures fault || topK < 0 ==> rows == []
      ensures !fault && topK >= 0 ==> rows == Nearest(Joined(faces, employees, query, dist), topK)
      ensures topK >= 0 ==> |rows| <= topK
      ensures Sorted(rows)
      ensures forall r :: r in rows ==> FromJoin(r, faces, employees, query, dist)
    {
      if fault || topK < 0 {
        return [];
      }
      var candidates := Joined(faces, employees, query, dist);
      rows := Nearest(candidates, topK);
      forall r | r in rows
        ensures FromJoin(r, faces, employees, query, dist)
      {
        assert r in multiset(rows);
        JoinedMembership(faces, employees, query, dist, r);
      }
    }
  }

  /** The join never answers with a face whose employee is missing. */
  lemma NoEmployeesNoAnswer(faces: seq<FaceRow>, query: Embedding, k: nat, dist: Distance)
    ensures Nearest(Joined(faces, [], query, dist), k) == []
  {
  }
}
