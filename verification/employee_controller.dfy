/** EmployeeController: the employee endpoints. The request classes are not
    part of this model: a request body is the employee record (its
    EmployeeID ignored on an add) and whether its annotations hold is the
    input `modelValid`. */
module EmployeeController {
  import opened Wrappers
  import opened Domain
  import opened Http
  import opened Database
  import KeyedTable
  import EmployeeDates
  import Repo = EmployeeRepository

  /** GetAllEmployees: the repository list is never null, so the reply is
      always Ok with every row, an empty table included. */
  function GetAllEmployees(s: Store): (r: Reply<seq<Employee>>)
    ensures r.status == Ok && r.body == Some(s.employees)
    ensures Valid(s) ==> forall i :: 0 <= i < |r.body.value| ==>
      GetEmployeeById(s, Some(r.body.value[i].employeeID)) == With(Ok, r.body.value[i])
  {
    With(Ok, Repo.GetAll(s.employees))
  }

  /** GetEmployeeById: BadRequest for a null id, NotFound for an absent one,
      otherwise Ok with the row. */
  function GetEmployeeById(s: Store, id: Option<int>): (r: Reply<Employee>)
    ensures id.None? ==> r.status == BadRequest
    ensures id.Some? ==> (r.status == NotFound <==> !KeyedTable.Has(s.employees, EmployeeKey, id.value))
    ensures r.status == Ok ==> r.body.Some? && KeyedTable.IsLookup(s.employees, EmployeeKey, id, r.body)
    ensures r.status in {Ok, BadRequest, NotFound}
  {
    if id.None? then Plain(BadRequest)
    else
      match Repo.GetById(s.employees, id)
      case None => Plain(NotFound)
      case Some(e) => With(Ok, e)
  }

  /** The dates of a request break the rule. */
  predicate BirthAfterHire(e: Employee) {
    EmployeeDates.ValidateDatesForAdd(e.birthDate, e.hireDate) != []
  }

  /** AddEmployee as written: BadRequest with no change for a missing body or
      invalid model state; otherwise the date rule is evaluated, its entry is
      never read, and the employee is stored under the key the store assigns
      (`newId`) and returned, whatever the dates. A key the store cannot take
      makes the insert throw. */
  function AddEmployee(s: Store, request: Option<Employee>, modelValid: bool, newId: int): (r: (Reply<Employee>, Store))
    ensures request.None? || !modelValid ==> r.0.status == BadRequest && r.1 == s
    ensures request.Some? && modelValid && !KeyedTable.Has(s.employees, EmployeeKey, newId) ==>
      var e := request.value.(employeeID := newId);
      r.0 == With(Created, e) && r.1 == s.(employees := s.employees + [e])
    ensures request.Some? && modelValid && KeyedTable.Has(s.employees, EmployeeKey, newId) ==>
      r.0.status == InternalServerError && r.1 == s
    ensures r.1 == s.(employees := r.1.employees)
    ensures Valid(s) ==> Valid(r.1)
  {
    match request
    case None => (Plain(BadRequest), s)
    case Some(q) =>
      if !modelValid then (Plain(BadRequest), s)
      else
        var _ := EmployeeDates.ValidateDatesForAdd(q.birthDate, q.hireDate);
        match Repo.Add(s.employees, Some(q.(employeeID := 0)), newId)
        case Failure(_) => (Plain(InternalServerError), s)
        case Success((added, t)) => (With(Created, added), s.(employees := t))
  }

  /** EditEmployee as written: BadRequest with no change for a missing body or
      invalid model state, NotFound with no change for an absent id;
      otherwise the row becomes the request, whatever the dates. */
  function EditEmployee(s: Store, request: Option<Employee>, modelValid: bool): (r: (Reply<Employee>, Store))
    ensures request.None? || !modelValid ==> r.0.status == BadRequest && r.1 == s
    ensures request.Some? && modelValid && !KeyedTable.Has(s.employees, EmployeeKey, request.value.employeeID) ==>
      r.0.status == NotFound && r.1 == s
    ensures request.Some? && modelValid && KeyedTable.Has(s.employees, EmployeeKey, request.value.employeeID) ==>
      && r.0 == With(Ok, request.value)
      && r.1.employees == Repo.Edit(s.employees, request.value).1
      && (Valid(s) ==> Repo.GetById(r.1.employees, Some(request.value.employeeID)) == Some(request.value))
    ensures r.1 == s.(employees := r.1.employees)
    ensures Valid(s) ==> Valid(r.1)
  {
    match request
    case None => (Plain(BadRequest), s)
    case Some(q) =>
      if !modelValid then (Plain(BadRequest), s)
      else
        var _ := EmployeeDates.ValidateDatesForEdit(q.birthDate, q.hireDate);
        var (edited, t) := Repo.Edit(s.employees, q);
        KeyedTable.ReplacePreservesUnique(s.employees, EmployeeKey, q, (edited, t));
        match edited
        case None => (Plain(NotFound), s)
        case Some(e) => (With(Ok, e), s.(employees := t))
  }

  /** The date entry does not stop an add: a request whose birth date is
      later than its hire date is still created and stored. */
  lemma DateErrorDoesNotStopAdd(s: Store, q: Employee, newId: int)
    requires BirthAfterHire(q)
    requires !KeyedTable.Has(s.employees, EmployeeKey, newId)
    ensures AddEmployee(s, Some(q), true, newId).0.status == Created
    ensures AddEmployee(s, Some(q), true, newId).1 != s
  {
    assert |AddEmployee(s, Some(q), true, newId).1.employees| == |s.employees| + 1;
  }

  /** Nor an edit: the stored row takes the offending dates. */
  lemma DateErrorDoesNotStopEdit(s: Store, q: Employee)
    requires Valid(s)
    requires BirthAfterHire(q)
    requires KeyedTable.Has(s.employees, EmployeeKey, q.employeeID)
    ensures EditEmployee(s, Some(q), true).0.status == Ok
    ensures Repo.GetById(EditEmployee(s, Some(q), true).1.employees, Some(q.employeeID)) == Some(q)
  {
  }

  /** A concrete instance: born in day 20000, hired in day 10000. */
  lemma BornAfterHiredIsCreated()
    ensures var q := Employee(0, "Doe", "Jane", None, None, Some(20000), Some(10000),
        None, None, None, None, None, None, None, None, None, None, None, None);
      && BirthAfterHire(q)
      && AddEmployee(Store([], [], [], [], [], [], [], [], [], [], [], [], []), Some(q), true, 1).0.status == Created
  {
  }

  /** AddEmployee with the date rule honoured: a birth date later than the
      hire date is a BadRequest that changes nothing; otherwise it is the add
      as written. */
  function AddEmployeeChecked(s: Store, request: Option<Employee>, modelValid: bool, newId: int): (r: (Reply<Employee>, Store))
    ensures request.Some? && BirthAfterHire(request.value) ==> r.0.status == BadRequest && r.1 == s
    ensures r.0.status == Created ==> request.Some? && !BirthAfterHire(request.value)
    ensures request.Some? && modelValid && !BirthAfterHire(request.value) && !KeyedTable.Has(s.employees, EmployeeKey, newId) ==>
      var e := request.value.(employeeID := newId);
      r.0 == With(Created, e) && r.1 == s.(employees := s.employees + [e])
    ensures r.1 == s.(employees := r.1.employees)
    ensures Valid(s) ==> Valid(r.1)
  {
    if request.Some? && BirthAfterHire(request.value) then (Plain(BadRequest), s)
    else AddEmployee(s, request, modelValid, newId)
  }

  /** EditEmployee with the date rule honoured. */
  function EditEmployeeChecked(s: Store, request: Option<Employee>, modelValid: bool): (r: (Reply<Employee>, Store))
    ensures request.Some? && BirthAfterHire(request.value) ==> r.0.status == BadRequest && r.1 == s
    ensures r.1 != s ==> request.Some? && !BirthAfterHire(request.value)
    ensures request.Some? && modelValid && !BirthAfterHire(request.value) && KeyedTable.Has(s.employees, EmployeeKey, request.value.employeeID) ==>
      r.0 == With(Ok, request.value) && r.1.employees == Repo.Edit(s.employees, request.value).1
    ensures r.1 == s.(employees := r.1.employees)
    ensures Valid(s) ==> Valid(r.1)
  {
    if request.Some? && BirthAfterHire(request.value) then (Plain(BadRequest), s)
    else EditEmployee(s, request, modelValid)
  }

  /** With the rule honoured, no stored row is ever added or edited into
      breaking it: the rows an add appends keep their dates ordered, and after
      an edit that changes the store, the row stored under the request's id
      is the request and keeps its dates ordered. */
  lemma CheckedKeepsDatesOrdered(s: Store, request: Option<Employee>, modelValid: bool, newId: int)
    ensures var a := AddEmployeeChecked(s, request, modelValid, newId).1;
      forall i :: |s.employees| <= i < |a.employees| ==> !BirthAfterHire(a.employees[i])
    ensures var e := EditEmployeeChecked(s, request, modelValid).1;
      e != s ==>
        && request.Some?
        && var row := Repo.GetById(e.employees, Some(request.value.employeeID));
           row == Some(request.value) && !BirthAfterHire(row.value)
  {
  }

  /** DeleteEmployee: BadRequest for a null id, NotFound with no change for an
      absent one; otherwise that row is removed. */
  function DeleteEmployee(s: Store, id: Option<int>): (r: (Reply<string>, Store))
    ensures id.None? ==> r.0.status == BadRequest && r.1 == s
    ensures id.Some? && !KeyedTable.Has(s.employees, EmployeeKey, id.value) ==> r.0.status == NotFound && r.1 == s
    ensures id.Some? && KeyedTable.Has(s.employees, EmployeeKey, id.value) ==>
      r.0.status == Ok && r.1.employees == Repo.Delete(s.employees, id).1
    ensures r.1 == s.(employees := r.1.employees)
    ensures Valid(s) ==> Valid(r.1) && Repo.GetById(r.1.employees, id).None?
  {
    if id.None? then (Plain(BadRequest), s)
    else
      var (deleted, t) := Repo.Delete(s.employees, id);
      if !deleted then (Plain(NotFound), s)
      else (Plain(Ok), s.(employees := t))
  }
}
