/** CustomerDemographicController: the customer-type endpoints. The add
    request class is not part of this model: its body is the demographic
    record and whether its annotations hold is the input `modelValid`. */
module CustomerDemographicController {
  import opened Wrappers
  import opened Domain
  import opened Http
  import opened Database
  import KeyedTable
  import Strings
  import Requests
  import Repo = CustomerDemographicRepository

  const ExistsMessage: string := "Customer demographic already exists."

  /** GetAllCustomerDemographics: always Ok with every row as read (its
      CustomerTypeID trimmed), an empty table included. */
  function GetAllCustomerDemographics(s: Store): (r: Reply<seq<CustomerDemographic>>)
    ensures r.status == Ok && r.body.Some? && |r.body.value| == |s.customerDemographics|
    ensures forall i :: 0 <= i < |s.customerDemographics| ==> r.body.value[i] == Repo.Trimmed(s.customerDemographics[i])
  {
    With(Ok, Repo.GetAll(s.customerDemographics))
  }

  /** GetCustomerDemographicById: BadRequest for a null or blank id, NotFound
      for an absent one, otherwise Ok with the row as read. */
  function GetCustomerDemographicById(s: Store, id: Option<string>): (r: Reply<CustomerDemographic>)
    ensures Strings.IsNullOrWhiteSpace(id) ==> r.status == BadRequest
    ensures !Strings.IsNullOrWhiteSpace(id) ==>
      (r.status == NotFound <==> !KeyedTable.Has(s.customerDemographics, CustomerDemographicKey, id.value))
    ensures r.status == Ok ==> r.body.Some? && KeyedTable.IsLookupThen(s.customerDemographics, CustomerDemographicKey, id, Repo.Trimmed, r.body)
    ensures r.status in {Ok, BadRequest, NotFound}
  {
    if Strings.IsNullOrWhiteSpace(id) then Plain(BadRequest)
    else
      match Repo.GetById(s.customerDemographics, id)
      case None => Plain(NotFound)
      case Some(d) => With(Ok, d)
  }

  /** AddCustomerDemographic: BadRequest with no change for a missing body,
      invalid model state or a CustomerTypeID already stored; otherwise the
      row is appended as given and returned. */
  function AddCustomerDemographic(s: Store, request: Option<CustomerDemographic>, modelValid: bool): (r: (Reply<CustomerDemographic>, Store))
    ensures request.None? || !modelValid ==> r.0.status == BadRequest && r.1 == s
    ensures request.Some? && modelValid && KeyedTable.Has(s.customerDemographics, CustomerDemographicKey, request.value.customerTypeID) ==>
      r.0 == Say(BadRequest, ExistsMessage) && r.1 == s
    ensures request.Some? && modelValid && !KeyedTable.Has(s.customerDemographics, CustomerDemographicKey, request.value.customerTypeID) ==>
      r.0 == With(Created, request.value) && r.1 == s.(customerDemographics := s.customerDemographics + [request.value])
    ensures r.1 == s.(customerDemographics := r.1.customerDemographics)
    ensures Valid(s) ==> Valid(r.1)
  {
    match request
    case None => (Plain(BadRequest), s)
    case Some(d) =>
      if !modelValid then (Plain(BadRequest), s)
      else if Repo.GetById(s.customerDemographics, Some(d.customerTypeID)).Some? then (Say(BadRequest, ExistsMessage), s)
      else
        match Repo.Add(s.customerDemographics, Some(d))
        case Failure(_) => (Plain(InternalServerError), s)
        case Success((added, t)) => (With(Created, added), s.(customerDemographics := t))
  }

  /** EditCustomerDemographic: BadRequest with no change for a missing body
      or a request the annotations refuse; no lookup first, so an absent
      CustomerTypeID is the NotFound of the edit; otherwise the row takes the
      request's description. */
  function EditCustomerDemographic(s: Store, request: Option<Requests.EditCustomerDemographicRequest>): (r: (Reply<CustomerDemographic>, Store))
    ensures request.None? ==> r.0.status == BadRequest && r.1 == s
    ensures request.Some? && Requests.ValidateEditCustomerDemographic(request.value) != [] ==> r.0.status == BadRequest && r.1 == s
    ensures request.Some? && Requests.ValidateEditCustomerDemographic(request.value) == [] ==>
      var d := CustomerDemographic(request.value.customerTypeID.value, request.value.customerDesc);
      && (!KeyedTable.Has(s.customerDemographics, CustomerDemographicKey, d.customerTypeID) ==> r.0.status == NotFound && r.1 == s)
      && (KeyedTable.Has(s.customerDemographics, CustomerDemographicKey, d.customerTypeID) ==>
        r.0 == With(Ok, d) && r.1.customerDemographics == Repo.Edit(s.customerDemographics, d).1)
    ensures r.1 == s.(customerDemographics := r.1.customerDemographics)
    ensures Valid(s) ==> Valid(r.1)
  {
    match request
    case None => (Plain(BadRequest), s)
    case Some(q) =>
      if Requests.ValidateEditCustomerDemographic(q) != [] then (Plain(BadRequest), s)
      else
        var d := CustomerDemographic(q.customerTypeID.value, q.customerDesc);
        var (edited, t) := Repo.Edit(s.customerDemographics, d);
        match edited
        case None => (Plain(NotFound), s)
        case Some(e) => (With(Ok, e), s.(customerDemographics := t))
  }

  /** DeleteCustomerDemographic: BadRequest for a null or blank id, NotFound
      with no change for an absent one; otherwise that row is removed. */
  function DeleteCustomerDemographic(s: Store, id: Option<string>): (r: (Reply<string>, Store))
    ensures Strings.IsNullOrWhiteSpace(id) ==> r.0.status == BadRequest && r.1 == s
    ensures !Strings.IsNullOrWhiteSpace(id) && !KeyedTable.Has(s.customerDemographics, CustomerDemographicKey, id.value) ==>
      r.0.status == NotFound && r.1 == s
    ensures !Strings.IsNullOrWhiteSpace(id) && KeyedTable.Has(s.customerDemographics, CustomerDemographicKey, id.value) ==>
      r.0.status == Ok && r.1.customerDemographics == Repo.Delete(s.customerDemographics, id).1
    ensures r.1 == s.(customerDemographics := r.1.customerDemographics)
    ensures Valid(s) ==> Valid(r.1)
    ensures Valid(s) && !Strings.IsNullOrWhiteSpace(id) ==> Repo.GetById(r.1.customerDemographics, id).None?
  {
    if Strings.IsNullOrWhiteSpace(id) then (Plain(BadRequest), s)
    else
      var (deleted, t) := Repo.Delete(s.customerDemographics, id);
      if !deleted then (Plain(NotFound), s)
      else (Plain(Ok), s.(customerDemographics := t))
  }

  /** What an add stores is what a fetch by the same id returns, the key
      trimmed: a padded CustomerTypeID is stored padded and read back
      without its padding. */
  lemma {:induction false} AddThenGet(s: Store, d: CustomerDemographic)
    requires Valid(s)
    requires !Strings.AllWhiteSpace(d.customerTypeID)
    requires !KeyedTable.Has(s.customerDemographics, CustomerDemographicKey, d.customerTypeID)
    ensures var (reply, s2) := AddCustomerDemographic(s, Some(d), true);
      && reply.status == Created
      && GetCustomerDemographicById(s2, Some(d.customerTypeID)) == With(Ok, Repo.Trimmed(d))
  {
    var s2 := AddCustomerDemographic(s, Some(d), true).1;
    var t := s2.customerDemographics;
    assert t == s.customerDemographics + [d];
    assert KeyedTable.FirstMatch(t, CustomerDemographicKey, d.customerTypeID, |s.customerDemographics|);
    KeyedTable.LookupEveryRow(t, CustomerDemographicKey);
    assert t[|s.customerDemographics|] == d;
  }
}
