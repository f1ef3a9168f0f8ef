/**
 * The employee list page (static/js/employees.js): the module-level
 * `employeesData` and `editingEmployeeId`, the search/position filter, and
 * the edit dialog's handling of the id being edited. DOM writes and the
 * network are left out; the update request is returned as a value.
 */
module EmployeesView {
  import opened Wrappers
  import opened Text
  import opened Sequences

  /** An element of `employeesData` as sent by the employee list endpoint. */
  datatype EmployeeRecord = EmployeeRecord(id: int, code: string, name: string, email: string, phone: string, position: string)

  /**
   * The filter's predicate for an already lower-cased search term: an empty
   * term or a term inside the lower-cased code or name, and an empty
   * position or exactly that position.
   */
  predicate Matches(e: EmployeeRecord, term: string, position: string) {
    && (term == "" || Contains(Lower(e.code), term) || Contains(Lower(e.name), term))
    && (position == "" || e.position == position)
  }

  /** `employeesData.filter(...)` for the typed search text and the selected position. */
  function FilterEmployees(employees: seq<EmployeeRecord>, searchText: string, position: string): (r: seq<EmployeeRecord>)
    ensures Subsequence(r, employees)
    ensures forall e :: e in r ==> Matches(e, Lower(searchText), position)
    ensures forall e :: Matches(e, Lower(searchText), position) ==> multiset(r)[e] == multiset(employees)[e]
  {
    if employees == [] then []
    else
      var e := employees[0];
      var rest := FilterEmployees(employees[1..], searchText, position);
      assert employees == [e] + employees[1..];
      if Matches(e, Lower(searchText), position) then
        assert ([e] + rest)[1..] == rest;
        [e] + rest
      else
        rest
  }

  /** With no search text and no position selected, every employee is listed, in order. */
  lemma {:induction false} EmptyFilterKeepsAll(employees: seq<EmployeeRecord>)
    ensures FilterEmployees(employees, "", "") == employees
  {
    if employees != [] {
      EmptyFilterKeepsAll(employees[1..]);
      assert Lower("") == "";
      assert employees == [employees[0]] + employees[1..];
    }
  }

  /** The kept employees: those whose lower-cased code or name holds the lower-cased text, in the selected position. */
  lemma FilteredMeansMatching(employees: seq<EmployeeRecord>, searchText: string, position: string, e: EmployeeRecord)
    ensures e in FilterEmployees(employees, searchText, position) <==>
      e in employees
      && (searchText == "" || Contains(Lower(e.code), Lower(searchText)) || Contains(Lower(e.name), Lower(searchText)))
      && (position == "" || e.position == position)
  {
    var r := FilterEmployees(employees, searchText, position);
    if e in r {
      SubsequenceMembers(r, employees, e);
    }
    if Matches(e, Lower(searchText), position) && e in employees {
      assert multiset(employees)[e] > 0;
    }
  }

  /** `employeesData.find(emp => emp.id === employeeId)`: the first employee with that id. */
  function FindById(employees: seq<EmployeeRecord>, employeeId: int): (r: Option<EmployeeRecord>)
    ensures r.None? <==> forall e :: e in employees ==> e.id != employeeId
    ensures r.Some? ==> exists i :: 0 <= i < |employees| && employees[i] == r.value && r.value.id == employeeId
                          && forall j :: 0 <= j < i ==> employees[j].id != employeeId
  {
    if employees == [] then None
    else if employees[0].id == employeeId then Some(employees[0])
    else
      var r := FindById(employees[1..], employeeId);
      if r.Some? then
        var i :| 0 <= i < |employees[1..]| && employees[1..][i] == r.value && r.value.id == employeeId
                 && forall j :: 0 <= j < i ==> employees[1..][j].id != employeeId;
        assert employees[i + 1] == r.value;
        r
      else
        r
  }

  /** The body of the PUT the edit form sends. */
  datatype UpdateRequest = UpdateRequest(employeeId: int, email: string, phone: string, position: string)

  class EmployeesPage {
    var employeesData: seq<EmployeeRecord>
    /** null, or the id whose edit dialog is open. */
    var editingEmployeeId: Option<int>

    constructor ()
      ensures employeesData == [] && editingEmployeeId == None
    {
      employeesData := [];
      editingEmployeeId := None;
    }

    /** loadEmployees: on a successful reply the page keeps the received list; otherwise the old one stays. */
    method Load(success: bool, data: seq<EmployeeRecord>)
      modifies this`employeesData
      ensures employeesData == if success then data else old(employeesData)
    {
      if success {
        employeesData := data;
      }
    }

    /**
     * editEmployee: an id the page does not list changes nothing; a listed
     * one becomes the id being edited and its record fills the form.
     */
    method Edit(employeeId: int) returns (form: Option<EmployeeRecord>)
      modifies this`editingEmployeeId
      ensures form == FindById(employeesData, employeeId)
      ensures editingEmployeeId == if form.Some? then Some(employeeId) else old(editingEmployeeId)
    {
      form := FindById(employeesData, employeeId);
      if form.Some? {
        editingEmployeeId := Some(employeeId);
      }
    }

    /** closeEditModal: no id is being edited any more. */
    method CloseEditModal()
      modifies this`editingEmployeeId
      ensures editingEmployeeId == None
    {
      editingEmployeeId := None;
    }

    /**
     * The edit form's submit handler: nothing is sent while the id is null
     * or 0 (`!editingEmployeeId`); otherwise one update for that id, and on
     * a successful reply the dialog closes.
     */
    method SubmitEdit(email: string, phone: string, position: string, success: bool) returns (sent: Option<UpdateRequest>)
      modifies this`editingEmployeeId
      ensures old(editingEmployeeId).None? || old(editingEmployeeId) == Some(0) ==>
        sent == None && editingEmployeeId == old(editingEmployeeId)
      ensures old(editingEmployeeId).Some? && old(editingEmployeeId) != Some(0) ==>
        && sent == Some(UpdateRequest(old(editingEmployeeId).value, email, phone, position))
        && editingEmployeeId == if success then None else old(editingEmployeeId)
    {
      if editingEmployeeId.None? || editingEmployeeId == Some(0) {
        return None;
      }
      sent := Some(UpdateRequest(editingEmployeeId.value, email, phone, position));
      if success {
        CloseEditModal();
      }
    }
  }
}
