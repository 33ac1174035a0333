/** TerritoryController: the territory endpoints. The add request class is
    not part of this model: its body is the territory record and whether its
    annotations hold is the input `modelValid`. */
module TerritoryController {
  import opened Wrappers
  import opened Domain
  import opened Http
  import opened Database
  import KeyedTable
  import Strings
  import Requests
  import Repo = TerritoryRepository

  const ExistsMessage: string := "Territory already exists"

  /** GetAllTerritories: always Ok with every row as read (its description
      trimmed), an empty table included. */
  function GetAllTerritories(s: Store): (r: Reply<seq<Territory>>)
    ensures r.status == Ok && r.body.Some? && |r.body.value| == |s.territories|
    ensures forall i :: 0 <= i < |s.territories| ==> r.body.value[i] == Repo.Trimmed(s.territories[i])
  {
    With(Ok, Repo.GetAll(s.territories))
  }

  /** GetTerritoryById: BadRequest for a null or empty id (a blank one is
      looked up), NotFound for an absent one, otherwise Ok with the row as
      read. */
  function GetTerritoryById(s: Store, id: Option<string>): (r: Reply<Territory>)
    ensures Strings.IsNullOrEmpty(id) ==> r.status == BadRequest
    ensures !Strings.IsNullOrEmpty(id) ==> (r.status == NotFound <==> !KeyedTable.Has(s.territories, TerritoryKey, id.value))
    ensures r.status == Ok ==> r.body.Some? && KeyedTable.IsLookupThen(s.territories, TerritoryKey, id, Repo.Trimmed, r.body)
    ensures r.status in {Ok, BadRequest, NotFound}
  {
    if Strings.IsNullOrEmpty(id) then Plain(BadRequest)
    else
      match Repo.GetById(s.territories, id)
      case None => Plain(NotFound)
      case Some(x) => With(Ok, x)
  }

  /** AddTerritory: BadRequest with no change for a missing body, invalid
      model state or a TerritoryID already stored; otherwise the row is
      appended as given and returned. */
  function AddTerritory(s: Store, request: Option<Territory>, modelValid: bool): (r: (Reply<Territory>, Store))
    ensures request.None? || !modelValid ==> r.0.status == BadRequest && r.1 == s
    ensures request.Some? && modelValid && KeyedTable.Has(s.territories, TerritoryKey, request.value.territoryID) ==>
      r.0 == Say(BadRequest, ExistsMessage) && r.1 == s
    ensures request.Some? && modelValid && !KeyedTable.Has(s.territories, TerritoryKey, request.value.territoryID) ==>
      r.0 == With(Created, request.value) && r.1 == s.(territories := s.territories + [request.value])
    ensures r.1 == s.(territories := r.1.territories)
    ensures Valid(s) ==> Valid(r.1)
  {
    match request
    case None => (Plain(BadRequest), s)
    case Some(x) =>
      if !modelValid then (Plain(BadRequest), s)
      else if Repo.GetById(s.territories, Some(x.territoryID)).Some? then (Say(BadRequest, ExistsMessage), s)
      else
        match Repo.Add(s.territories, Some(x))
        case Failure(_) => (Plain(InternalServerError), s)
        case Success((added, t)) => (With(Created, added), s.(territories := t))
  }

  /** EditTerritory: BadRequest with no change for a missing body or a
      request the annotations refuse, NotFound with no change for an absent
      TerritoryID; otherwise the row takes the request's columns. The
      BadRequest after the edit cannot be reached, because the edit follows
      a successful lookup. */
  function EditTerritory(s: Store, request: Option<Requests.EditTerritoryRequest>): (r: (Reply<Territory>, Store))
    ensures request.None? ==> r.0.status == BadRequest && r.1 == s
    ensures request.Some? && Requests.ValidateEditTerritory(request.value) != [] ==> r.0.status == BadRequest && r.1 == s
    ensures request.Some? && Requests.ValidateEditTerritory(request.value) == [] ==>
      var x := Territory(request.value.territoryID.value, request.value.territoryDescription.value, request.value.regionID);
      && (!KeyedTable.Has(s.territories, TerritoryKey, x.territoryID) ==> r.0.status == NotFound && r.1 == s)
      && (KeyedTable.Has(s.territories, TerritoryKey, x.territoryID) ==>
        r.0 == With(Ok, x) && r.1.territories == Repo.Edit(s.territories, x).1)
    ensures r.1 == s.(territories := r.1.territories)
    ensures Valid(s) ==> Valid(r.1)
  {
    match request
    case None => (Plain(BadRequest), s)
    case Some(q) =>
      if Requests.ValidateEditTerritory(q) != [] then (Plain(BadRequest), s)
      else if Repo.GetById(s.territories, q.territoryID).None? then (Plain(NotFound), s)
      else
        var x := Territory(q.territoryID.value, q.territoryDescription.value, q.regionID);
        var (edited, t) := Repo.Edit(s.territories, x);
        match edited
        case None => (Plain(BadRequest), s)
        case Some(e) => (With(Ok, e), s.(territories := t))
  }

  /** DeleteTerritory: BadRequest for a null or empty id, NotFound with no
      change for an absent one; otherwise that row is removed. */
  function DeleteTerritory(s: Store, id: Option<string>): (r: (Reply<string>, Store))
    ensures Strings.IsNullOrEmpty(id) ==> r.0.status == BadRequest && r.1 == s
    ensures !Strings.IsNullOrEmpty(id) && !KeyedTable.Has(s.territories, TerritoryKey, id.value) ==>
      r.0.status == NotFound && r.1 == s
    ensures !Strings.IsNullOrEmpty(id) && KeyedTable.Has(s.territories, TerritoryKey, id.value) ==>
      r.0.status == Ok && r.1.territories == Repo.Delete(s.territories, id).1
    ensures r.1 == s.(territories := r.1.territories)
    ensures Valid(s) ==> Valid(r.1)
    ensures Valid(s) && !Strings.IsNullOrEmpty(id) ==> Repo.GetById(r.1.territories, id).None?
  {
    if Strings.IsNullOrEmpty(id) then (Plain(BadRequest), s)
    else
      var (deleted, t) := Repo.Delete(s.territories, id);
      if !deleted then (Plain(NotFound), s)
      else (Plain(Ok), s.(territories := t))
  }

  /** An edit is seen by the next fetch: the territory reads back with the
      request's columns, its description trimmed. */
  lemma {:induction false} EditThenGet(s: Store, q: Requests.EditTerritoryRequest)
    requires Valid(s)
    requires Requests.ValidateEditTerritory(q) == []
    requires KeyedTable.Has(s.territories, TerritoryKey, q.territoryID.value)
    ensures var (reply, s2) := EditTerritory(s, Some(q));
      var x := Territory(q.territoryID.value, q.territoryDescription.value, q.regionID);
      && reply.status == Ok
      && GetTerritoryById(s2, q.territoryID) == With(Ok, Repo.Trimmed(x))
  {
    var x := Territory(q.territoryID.value, q.territoryDescription.value, q.regionID);
    var r := Repo.Edit(s.territories, x);
    KeyedTable.ReplacePreservesUnique(s.territories, TerritoryKey, x, r);
    assert KeyedTable.Get(r.1, TerritoryKey, Some(x.territoryID)) == Some(x);
  }
}
