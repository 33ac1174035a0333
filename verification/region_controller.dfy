/** RegionController: the region endpoints. */
module RegionController {
  import opened Wrappers
  import opened Domain
  import opened Http
  import opened Database
  import KeyedTable
  import Strings
  import Requests
  import Repo = RegionRepository

  const ExistsMessage: string := "Region already exists"

  /** GetAllRegions: Ok with every row as read (its description trimmed);
      there is no NotFound branch at all. */
  function GetAllRegions(s: Store): (r: Reply<seq<Region>>)
    ensures r.status == Ok && r.body.Some? && |r.body.value| == |s.regions|
    ensures forall i :: 0 <= i < |s.regions| ==> r.body.value[i] == Repo.Trimmed(s.regions[i])
  {
    With(Ok, Repo.GetAll(s.regions))
  }

  /** GetRegionById: BadRequest for a null id, NotFound for an absent one,
      otherwise Ok with the row as read. */
  function GetRegionById(s: Store, id: Option<int>): (r: Reply<Region>)
    ensures id.None? ==> r.status == BadRequest
    ensures id.Some? ==> (r.status == NotFound <==> !KeyedTable.Has(s.regions, RegionKey, id.value))
    ensures r.status == Ok ==> r.body.Some? && KeyedTable.IsLookupThen(s.regions, RegionKey, id, Repo.Trimmed, r.body)
    ensures r.status in {Ok, BadRequest, NotFound}
  {
    if id.None? then Plain(BadRequest)
    else
      match Repo.GetById(s.regions, id)
      case None => Plain(NotFound)
      case Some(x) => With(Ok, x)
  }

  /** AddRegion: BadRequest with no change for a missing body, a request the
      annotations refuse or a RegionID already stored; otherwise the region
      is appended as given and returned. */
  function AddRegion(s: Store, request: Option<Requests.AddRegionRequest>): (r: (Reply<Region>, Store))
    ensures request.None? ==> r.0.status == BadRequest && r.1 == s
    ensures request.Some? && Requests.ValidateAddRegion(request.value) != [] ==> r.0.status == BadRequest && r.1 == s
    ensures request.Some? && Requests.ValidateAddRegion(request.value) == [] ==>
      var x := Region(request.value.regionID, request.value.regionDescription.value);
      && (KeyedTable.Has(s.regions, RegionKey, x.regionID) ==> r.0 == Say(BadRequest, ExistsMessage) && r.1 == s)
      && (!KeyedTable.Has(s.regions, RegionKey, x.regionID) ==> r.0 == With(Created, x) && r.1 == s.(regions := s.regions + [x]))
    ensures r.1 == s.(regions := r.1.regions)
    ensures Valid(s) ==> Valid(r.1)
  {
    match request
    case None => (Plain(BadRequest), s)
    case Some(q) =>
      if Requests.ValidateAddRegion(q) != [] then (Plain(BadRequest), s)
      else if Repo.GetById(s.regions, Some(q.regionID)).Some? then (Say(BadRequest, ExistsMessage), s)
      else
        match Repo.Add(s.regions, Some(Region(q.regionID, q.regionDescription.value)))
        case Failure(_) => (Plain(InternalServerError), s)
        case Success((added, t)) => (With(Created, added), s.(regions := t))
  }

  /** EditRegion: BadRequest with no change for a missing body or a request
      the annotations refuse; no lookup first, so an absent RegionID is the
      NotFound of the edit; otherwise the row takes the request's
      description. */
  function EditRegion(s: Store, request: Option<Requests.EditRegionRequest>): (r: (Reply<Region>, Store))
    ensures request.None? ==> r.0.status == BadRequest && r.1 == s
    ensures request.Some? && Requests.ValidateEditRegion(request.value) != [] ==> r.0.status == BadRequest && r.1 == s
    ensures request.Some? && Requests.ValidateEditRegion(request.value) == [] ==>
      var x := Region(request.value.regionID, request.value.regionDescription.value);
      && (!KeyedTable.Has(s.regions, RegionKey, x.regionID) ==> r.0.status == NotFound && r.1 == s)
      && (KeyedTable.Has(s.regions, RegionKey, x.regionID) ==>
        r.0 == With(Ok, x) && r.1.regions == Repo.Edit(s.regions, x).1)
    ensures r.1 == s.(regions := r.1.regions)
    ensures Valid(s) ==> Valid(r.1)
  {
    match request
    case None => (Plain(BadRequest), s)
    case Some(q) =>
      if Requests.ValidateEditRegion(q) != [] then (Plain(BadRequest), s)
      else
        var x := Region(q.regionID, q.regionDescription.value);
        var (edited, t) := Repo.Edit(s.regions, x);
        match edited
        case None => (Plain(NotFound), s)
        case Some(e) => (With(Ok, e), s.(regions := t))
  }

  /** DeleteRegion: BadRequest for a null id, NotFound with no change for an
      absent one; otherwise that row is removed. */
  function DeleteRegion(s: Store, id: Option<int>): (r: (Reply<string>, Store))
    ensures id.None? ==> r.0.status == BadRequest && r.1 == s
    ensures id.Some? && !KeyedTable.Has(s.regions, RegionKey, id.value) ==> r.0.status == NotFound && r.1 == s
    ensures id.Some? && KeyedTable.Has(s.regions, RegionKey, id.value) ==>
      r.0.status == Ok && r.1.regions == Repo.Delete(s.regions, id).1
    ensures r.1 == s.(regions := r.1.regions)
    ensures Valid(s) ==> Valid(r.1) && Repo.GetById(r.1.regions, id).None?
  {
    if id.None? then (Plain(BadRequest), s)
    else
      var (deleted, t) := Repo.Delete(s.regions, id);
      if !deleted then (Plain(NotFound), s)
      else (Plain(Ok), s.(regions := t))
  }

  /** The region life cycle, for any free id and any valid, trimmed
      description: adding it is Created, fetching it is Ok with that row,
      deleting it is Ok, fetching it again is NotFound, and the store is back
      as it was. */
  lemma {:induction false} RegionLifeCycle(s: Store, id: int, description: string)
    requires Valid(s)
    requires !KeyedTable.Has(s.regions, RegionKey, id)
    requires Requests.ValidateAddRegion(Requests.AddRegionRequest(id, Some(description))) == []
    requires Strings.IsTrimmed(description)
    ensures var (added, s1) := AddRegion(s, Some(Requests.AddRegionRequest(id, Some(description))));
      var (deleted, s2) := DeleteRegion(s1, Some(id));
      && added == With(Created, Region(id, description))
      && GetRegionById(s1, Some(id)) == With(Ok, Region(id, description))
      && deleted.status == Ok
      && GetRegionById(s2, Some(id)).status == NotFound
      && s2 == s
  {
    var x := Region(id, description);
    var s1 := AddRegion(s, Some(Requests.AddRegionRequest(id, Some(description)))).1;
    assert s1.regions == s.regions + [x];
    KeyedTable.InsertThenRemove(s.regions, RegionKey, x);
    assert KeyedTable.FirstMatch(s1.regions, RegionKey, id, |s.regions|);
    assert Repo.Trimmed(x) == x;
  }

}
