/**
 * FaceRecognizer (modules/recognition.py): turns a query embedding into an
 * identity decision with one top-1 query against the store and a distance
 * threshold. A miss is an ordinary answer, not an error.
 */
module Recognition {
  import opened Wrappers
  import opened Database

  /** The label of every answer that names nobody. */
  const Unknown: string := "Unknown"

  /** The threshold the recognition endpoint configures (and the class default). */
  const DefaultThreshold: real := 0.7

  /**
   * recognize's answer tuple. Its second slot holds the employee's NAME on a
   * match (e.name from the search row), although the endpoint unpacks that
   * slot as the employee code.
   */
  datatype Match = Match(employeeId: Option<int>, name: string, distance: Option<real>, confidence: Option<real>)

  const NoMatch: Match := Match(None, Unknown, None, None)

  /** The case analysis over the store's top-1 answer. */
  function Classify(results: seq<SearchRow>, threshold: real): (m: Match)
    ensures m.employeeId.Some? <==> results != [] && results[0].distance <= threshold
    ensures m.employeeId.Some? ==> m.employeeId.value == results[0].employeeId && m.name == results[0].name
    ensures m.employeeId.None? ==> m.name == Unknown
    ensures m.distance.Some? <==> results != []
    ensures m.distance.Some? ==> m.distance.value == results[0].distance && m.confidence == Some(1.0 - m.distance.value)
    ensures m.distance.None? ==> m.confidence.None?
  {
    if results == [] then NoMatch
    else
      var top := results[0];
      if top.distance <= threshold then
        Match(Some(top.employeeId), top.name, Some(top.distance), Some(1.0 - top.distance))
      else
        Match(None, Unknown, Some(top.distance), Some(1.0 - top.distance))
  }

  /** What recognize answers for `embedding` against the given tables. */
  function Outcome(faces: seq<FaceRow>, employees: seq<Employee>, embedding: Option<Embedding>,
                   threshold: real, dist: Distance, fault: bool): (m: Match)
    ensures embedding.None? || fault ==> m == NoMatch
    ensures m.employeeId.Some? ==> m.distance.Some? && m.distance.value <= threshold
  {
    if embedding.None? || fault then NoMatch
    else Classify(Nearest(Joined(faces, employees, embedding.value, dist), 1), threshold)
  }

  class FaceRecognizer {
    const database: FaceDatabase
    const threshold: real

    constructor (database: FaceDatabase, threshold: real)
      ensures this.database == database && this.threshold == threshold
    {
      this.database := database;
      this.threshold := threshold;
    }

    /**
     * recognize: a missing embedding answers NoMatch without a query;
     * otherwise one search_face call with top_k = 1 and the threshold
     * decision. It has no modifies clause: the store is never written.
     */
    method Recognize(embedding: Option<Embedding>, dist: Distance, fault: bool) returns (m: Match)
      ensures m == Outcome(database.faces, database.employees, embedding, threshold, dist, fault)
    {
      if embedding.None? {
        return NoMatch;
      }
      var results := database.SearchFace(embedding.value, 1, dist, fault);
      m := Classify(results, threshold);
    }
  }

  // ---- what the decision means against the store ----

  /**
   * A match names an existing employee with a stored face within the
   * threshold that no other candidate beats, and reports that face's
   * distance and 1 - distance as confidence.
   */
  lemma {:induction false} MatchIsNearestWithinThreshold(faces: seq<FaceRow>, employees: seq<Employee>, embedding: Option<Embedding>,
                                      threshold: real, dist: Distance, fault: bool)
    requires Outcome(faces, employees, embedding, threshold, dist, fault).employeeId.Some?
    ensures !fault && embedding.Some?
    ensures
      var m := Outcome(faces, employees, embedding, threshold, dist, fault);
      var candidates := Joined(faces, employees, embedding.value, dist);
      exists r :: r in candidates
        && FromJoin(r, faces, employees, embedding.value, dist)
        && m == Match(Some(r.employeeId), r.name, Some(r.distance), Some(1.0 - r.distance))
        && r.distance <= threshold
        && (forall y :: y in candidates ==> r.distance <= y.distance)
  {
    var candidates := Joined(faces, employees, embedding.value, dist);
    var top := Nearest(candidates, 1);
    ClassifyHit(top, threshold);
    TopIsNearest(candidates);
    JoinedMembership(faces, employees, embedding.value, dist, top[0]);
  }

  /** A match names an enrolled employee (one with a stored face) whose face lies within the threshold. */
  lemma {:induction false} MatchNamesEnrolledEmployee(faces: seq<FaceRow>, employees: seq<Employee>, embedding: Embedding,
                                                      threshold: real, dist: Distance, fault: bool)
    requires Outcome(faces, employees, Some(embedding), threshold, dist, fault).employeeId.Some?
    ensures
      var m := Outcome(faces, employees, Some(embedding), threshold, dist, fault);
      exists e, f :: e in employees && f in faces && f.employeeId == e.id
        && dist(f.embedding, embedding) <= threshold
        && m.employeeId == Some(e.id) && m.name == e.name
  {
    var candidates := Joined(faces, employees, embedding, dist);
    var top := Nearest(candidates, 1);
    ClassifyHit(top, threshold);
    TopIsNearest(candidates);
    JoinedMembership(faces, employees, embedding, dist, top[0]);
    var i, j :| 0 <= i < |faces| && 0 <= j < |employees|
      && faces[i].employeeId == employees[j].id && top[0] == JoinedRow(faces[i], employees[j], embedding, dist);
    assert faces[i] in faces && employees[j] in employees;
  }

  /** With a query and a working store, the answer names somebody exactly when some candidate is within the threshold. */
  lemma {:induction false} MatchIffCandidateWithinThreshold(faces: seq<FaceRow>, employees: seq<Employee>, embedding: Embedding,
                                         threshold: real, dist: Distance)
    ensures Outcome(faces, employees, Some(embedding), threshold, dist, false).employeeId.Some? <==>
      exists y :: y in Joined(faces, employees, embedding, dist) && y.distance <= threshold
  {
    var candidates := Joined(faces, employees, embedding, dist);
    TopIsNearest(candidates);
    var top := Nearest(candidates, 1);
    if top != [] && top[0].distance <= threshold {
      assert top[0] in candidates;
    }
  }

  /**
   * A miss over a non-empty candidate set (the join rows of a working
   * store) still reports the nearest distance, above the threshold, and
   * 1 - distance.
   */
  lemma {:induction false} MissReportsNearestDistance(candidates: seq<SearchRow>, threshold: real)
    requires candidates != []
    requires Classify(Nearest(candidates, 1), threshold).employeeId.None?
    ensures
      var m := Classify(Nearest(candidates, 1), threshold);
      && m.name == Unknown
      && m.distance.Some? && m.distance.value > threshold
      && m.confidence == Some(1.0 - m.distance.value)
      && (forall y :: y in candidates ==> m.distance.value <= y.distance)
  {
    TopIsNearest(candidates);
    ClassifyMiss(Nearest(candidates, 1), threshold);
  }

  /** A top answer within the threshold gives its id, name, distance and 1 - distance. */
  lemma ClassifyHit(top: seq<SearchRow>, threshold: real)
    requires Classify(top, threshold).employeeId.Some?
    ensures top != [] && top[0].distance <= threshold
    ensures Classify(top, threshold) == Match(Some(top[0].employeeId), top[0].name, Some(top[0].distance), Some(1.0 - top[0].distance))
  {
  }

  /** A top answer beyond the threshold gives Unknown with its distance and 1 - distance. */
  lemma ClassifyMiss(top: seq<SearchRow>, threshold: real)
    requires top != [] && Classify(top, threshold).employeeId.None?
    ensures top[0].distance > threshold
    ensures Classify(top, threshold) == Match(None, Unknown, Some(top[0].distance), Some(1.0 - top[0].distance))
  {
  }

  /** An empty store, a store without enrolled employees, or no embedding: always Unknown with no distance. */
  lemma {:induction false} NothingToMatchIsUnknown(faces: seq<FaceRow>, employees: seq<Employee>, embedding: Option<Embedding>,
                                threshold: real, dist: Distance, fault: bool)
    requires faces == [] || employees == [] || embedding.None? || fault
    ensures Outcome(faces, employees, embedding, threshold, dist, fault) == NoMatch
  {
    if embedding.Some? && !fault && employees == [] {
      NoEmployeesNoAnswer(faces, embedding.value, 1, dist);
    }
  }

  /**
   * One enrolled employee whose stored embedding is the query itself, at
   * distance 0: the answer is that employee with confidence 1.
   */
  lemma {:induction false} SelfQueryMatches(e: Employee, f: FaceRow, threshold: real, dist: Distance)
    requires f.employeeId == e.id && dist(f.embedding, f.embedding) == 0.0 && threshold >= 0.0
    ensures Outcome([f], [e], Some(f.embedding), threshold, dist, false)
            == Match(Some(e.id), e.name, Some(0.0), Some(1.0))
  {
    var row := JoinedRow(f, e, f.embedding, dist);
    assert JoinOne(f, [e], f.embedding, dist) == [row] + JoinOne(f, [], f.embedding, dist);
    assert Joined([f], [e], f.embedding, dist) == [row] + Joined([], [e], f.embedding, dist);
    assert SortByDistance([row]) == Insert(row, SortByDistance([]));
    assert Nearest([row], 1) == [row];
  }
}
