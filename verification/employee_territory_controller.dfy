/** EmployeeTeritoryController: the employee-to-territory link endpoints. */
module EmployeeTerritoryController {
  import opened Wrappers
  import opened Domain
  import opened Http
  import opened Database
  import KeyedTable
  import Strings
  import Join
  import Enrichment
  import Requests
  import Repo = EmployeeTerritoryRepository

  const ExistsMessage: string := "EmployeeTerritory already exists"

  /** The column of the list endpoint's territory dictionary: the
      description, trimmed. */
  function TrimmedDescriptionOf(t: Territory): (r: Option<string>)
    ensures r == Strings.TrimNullable(Enrichment.TerritoryDescriptionOf(t))
  {
    Some(Strings.Trim(t.territoryDescription))
  }

  /** Looking up the trimmed column is trimming the looked-up column. */
  lemma {:induction false} TrimmedLookup(territories: seq<Territory>, k: string)
    ensures Join.FirstOrDefault(territories, TerritoryKey, TrimmedDescriptionOf, k)
      == Strings.TrimNullable(Join.FirstOrDefault(territories, TerritoryKey, Enrichment.TerritoryDescriptionOf, k))
  {
    match KeyedTable.Find(territories, TerritoryKey, k)
    case None =>
    case Some(i) =>
  }

  /** `TrimmedLookup` at every link. */
  lemma {:induction false} TrimmedLookupEvery(territories: seq<Territory>, links: seq<EmployeeTerritory>)
    ensures forall i :: 0 <= i < |links| ==>
      Join.FirstOrDefault(territories, TerritoryKey, TrimmedDescriptionOf, links[i].territoryID)
        == Strings.TrimNullable(Join.FirstOrDefault(territories, TerritoryKey, Enrichment.TerritoryDescriptionOf, links[i].territoryID))
  {
    forall i | 0 <= i < |links| {
      TrimmedLookup(territories, links[i].territoryID);
    }
  }

  /** The list endpoint's enrichment: a full-name dictionary over the
      employees and a trimmed-description dictionary over the territories the
      links refer to. It fails when a dictionary meets a repeated key;
      otherwise every link shows what the single-row load finds, the
      territory trimmed, with "Unknown" in place of null. */
  function EnrichAll(employees: seq<Employee>, territories: seq<Territory>, links: seq<EmployeeTerritory>): (r: Option<seq<Enrichment.EmployeeTerritoryView>>)
    ensures KeyedTable.Unique(employees, EmployeeKey) && KeyedTable.Unique(territories, TerritoryKey) ==> r.Some?
    ensures r.Some? ==> |r.value| == |links|
    ensures r.Some? ==> forall i :: 0 <= i < |links| ==>
      var single := Enrichment.LoadEmployeeAndTerritoryDetails(employees, territories, links[i]);
      && r.value[i].row == links[i]
      && r.value[i].employee == Some(single.employee.GetOr(Join.Unknown))
      && r.value[i].territory == Some(Strings.TrimNullable(single.territory).GetOr(Join.Unknown))
  {
    var names := Join.BulkColumn(employees, EmployeeKey, Enrichment.FullNameOf, links, (l: EmployeeTerritory) => l.employeeID);
    var descriptions := Join.BulkColumn(territories, TerritoryKey, TrimmedDescriptionOf, links, (l: EmployeeTerritory) => l.territoryID);
    if names.None? || descriptions.None? then None
    else
      TrimmedLookupEvery(territories, links);
      Some(seq(|links|, i requires 0 <= i < |links| =>
        Enrichment.EmployeeTerritoryView(links[i], Some(names.value[i]), Some(descriptions.value[i]))))
  }

  /** GetAllEmployeeTerritories: NotFound for an empty table; otherwise every
      link, in store order, with its display fields. */
  function GetAllEmployeeTerritories(s: Store): (r: Reply<seq<Enrichment.EmployeeTerritoryView>>)
    ensures |s.employeeTerritories| == 0 ==> r.status == NotFound
    ensures |s.employeeTerritories| > 0 && Valid(s) ==> r.status == Ok
    ensures r.status == Ok ==> r.body == EnrichAll(s.employees, s.territories, s.employeeTerritories)
    ensures r.status in {Ok, NotFound, InternalServerError}
  {
    var links := Repo.GetAll(s.employeeTerritories);
    if |links| == 0 then Plain(NotFound)
    else
      match EnrichAll(s.employees, s.territories, links)
      case None => Plain(InternalServerError)
      case Some(views) => With(Ok, views)
  }

  /** The by-id guard: a null employee id or a null or empty territory id. */
  predicate Malformed(employeeId: Option<int>, territoryId: Option<string>) {
    employeeId.None? || Strings.IsNullOrEmpty(territoryId)
  }

  /** GetEmployeeTerritoryById: BadRequest for a null employee id or a null
      or empty territory id, NotFound for an absent pair; otherwise the link
      with the single-row load's fields, the territory trimmed and both left
      null for a missing reference. */
  function GetEmployeeTerritoryById(s: Store, employeeId: Option<int>, territoryId: Option<string>): (r: Reply<Enrichment.EmployeeTerritoryView>)
    ensures Malformed(employeeId, territoryId) ==> r.status == BadRequest
    ensures !Malformed(employeeId, territoryId) ==>
      (r.status == NotFound <==> !KeyedTable.Has(s.employeeTerritories, EmployeeTerritoryKey, (employeeId.value, territoryId.value)))
    ensures r.status == Ok ==>
      var single := Enrichment.LoadEmployeeAndTerritoryDetails(s.employees, s.territories, EmployeeTerritory(employeeId.value, territoryId.value));
      r.body == Some(single.(territory := Strings.TrimNullable(single.territory)))
    ensures r.status in {Ok, BadRequest, NotFound}
  {
    if Malformed(employeeId, territoryId) then Plain(BadRequest)
    else
      match Repo.GetById(s.employeeTerritories, employeeId, territoryId)
      case None => Plain(NotFound)
      case Some(l) =>
        var single := Enrichment.LoadEmployeeAndTerritoryDetails(s.employees, s.territories, l);
        With(Ok, single.(territory := Strings.TrimNullable(single.territory)))
  }

  /** AddEmployeeTerritory: BadRequest with no change for a missing body, a
      request the annotations refuse, or a pair already stored; otherwise the
      link is appended and returned. */
  function AddEmployeeTerritory(s: Store, request: Option<Requests.AddEmployeeTerritoryRequest>): (r: (Reply<EmployeeTerritory>, Store))
    ensures request.None? ==> r.0.status == BadRequest && r.1 == s
    ensures request.Some? && Requests.ValidateAddEmployeeTerritory(request.value) != [] ==>
      r.0.status == BadRequest && r.1 == s
    ensures r.0.status == Created <==>
      && request.Some? && Requests.ValidateAddEmployeeTerritory(request.value) == []
      && !KeyedTable.Has(s.employeeTerritories, EmployeeTerritoryKey, (request.value.employeeID, request.value.territoryID.value))
    ensures r.0.status == Created ==>
      var l := EmployeeTerritory(request.value.employeeID, request.value.territoryID.value);
      r.0.body == Some(l) && r.1 == s.(employeeTerritories := s.employeeTerritories + [l])
    ensures r.0.status != Created ==> r.0.status == BadRequest && r.1 == s
    ensures r.0.status == BadRequest && r.0.message.Some? ==> r.0.message == Some(ExistsMessage)
    ensures r.1 == s.(employeeTerritories := r.1.employeeTerritories)
    ensures Valid(s) ==> Valid(r.1)
  {
    match request
    case None => (Plain(BadRequest), s)
    case Some(q) =>
      if Requests.ValidateAddEmployeeTerritory(q) != [] then (Plain(BadRequest), s)
      else if Repo.GetById(s.employeeTerritories, Some(q.employeeID), q.territoryID).Some? then
        (Say(BadRequest, ExistsMessage), s)
      else
        match Repo.Add(s.employeeTerritories, Some(EmployeeTerritory(q.employeeID, q.territoryID.value)))
        case Failure(_) => (Plain(InternalServerError), s)
        case Success((added, t)) => (With(Created, added), s.(employeeTerritories := t))
  }

  /** DeleteEmployeeTerritory: BadRequest under the by-id guard, NotFound with
      no change for an absent pair; otherwise exactly that link is removed. */
  function DeleteEmployeeTerritory(s: Store, employeeId: Option<int>, territoryId: Option<string>): (r: (Reply<string>, Store))
    ensures Malformed(employeeId, territoryId) ==> r.0.status == BadRequest && r.1 == s
    ensures !Malformed(employeeId, territoryId) && !KeyedTable.Has(s.employeeTerritories, EmployeeTerritoryKey, (employeeId.value, territoryId.value)) ==>
      r.0.status == NotFound && r.1 == s
    ensures !Malformed(employeeId, territoryId) && KeyedTable.Has(s.employeeTerritories, EmployeeTerritoryKey, (employeeId.value, territoryId.value)) ==>
      r.0.status == Ok && r.1.employeeTerritories == Repo.Delete(s.employeeTerritories, employeeId, territoryId).1
    ensures r.1 == s.(employeeTerritories := r.1.employeeTerritories)
    ensures Valid(s) ==> Valid(r.1)
    ensures Valid(s) && !Malformed(employeeId, territoryId) ==> Repo.GetById(r.1.employeeTerritories, employeeId, territoryId).None?
  {
    if Malformed(employeeId, territoryId) then (Plain(BadRequest), s)
    else
      var (deleted, t) := Repo.Delete(s.employeeTerritories, employeeId, territoryId);
      if !deleted then (Plain(NotFound), s)
      else (Plain(Ok), s.(employeeTerritories := t))
  }

  /** A stored link whose territory id is not empty reads the same through
      both endpoints, the list showing "Unknown" where the by-id shows null.
      A link stored with an empty territory id is listed but cannot be
      fetched: the guard refuses it. */
  lemma {:induction false} ListAgreesWithById(s: Store, i: int)
    requires Valid(s)
    requires 0 <= i < |s.employeeTerritories|
    ensures var l := s.employeeTerritories[i];
      var one := GetEmployeeTerritoryById(s, Some(l.employeeID), Some(l.territoryID));
      var all := GetAllEmployeeTerritories(s);
      && all.status == Ok
      && (l.territoryID == "" <==> one.status == BadRequest)
      && (l.territoryID != "" ==>
        && one.status == Ok
        && all.body.value[i].row == one.body.value.row
        && all.body.value[i].employee == Some(one.body.value.employee.GetOr(Join.Unknown))
        && all.body.value[i].territory == Some(one.body.value.territory.GetOr(Join.Unknown)))
  {
    var l := s.employeeTerritories[i];
    KeyedTable.LookupEveryRow(s.employeeTerritories, EmployeeTerritoryKey);
    assert Repo.GetById(s.employeeTerritories, Some(l.employeeID), Some(l.territoryID)) == Some(l);
  }
}
