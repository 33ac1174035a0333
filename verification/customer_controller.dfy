/** CustomerController: the customer endpoints. The request classes are not
    part of this model: a request body is the customer record and whether
    its annotations hold is the input `modelValid`. */
module CustomerController {
  import opened Wrappers
  import opened Domain
  import opened Http
  import opened Database
  import KeyedTable
  import Strings
  import Repo = CustomerRepository

  const ExistsMessage: string := "Customer already exists"
  const MissingMessage: string := "Customer does not exist"

  /** GetAllCustomers: the repository list is never null, so the reply is
      always Ok with every row, an empty table included. */
  function GetAllCustomers(s: Store): (r: Reply<seq<Customer>>)
    ensures r.status == Ok && r.body == Some(s.customers)
    ensures Valid(s) ==> forall i :: 0 <= i < |r.body.value| ==>
      GetCustomerById(s, Some(r.body.value[i].customerID)) == With(Ok, r.body.value[i])
  {
    With(Ok, Repo.GetAll(s.customers))
  }

  /** GetCustomerById: no guard on the id; a null or absent id is NotFound,
      otherwise Ok with the row. */
  function GetCustomerById(s: Store, customerId: Option<string>): (r: Reply<Customer>)
    ensures r.status == NotFound <==> customerId.None? || !KeyedTable.Has(s.customers, CustomerKey, customerId.value)
    ensures r.status == Ok ==> r.body.Some? && KeyedTable.IsLookup(s.customers, CustomerKey, customerId, r.body)
    ensures r.status in {Ok, NotFound}
  {
    match Repo.GetById(s.customers, customerId)
    case None => Plain(NotFound)
    case Some(c) => With(Ok, c)
  }

  /** AddCustomer: BadRequest with no change for a missing body, invalid
      model state or a CustomerID already stored; otherwise the customer is
      appended and returned. */
  function AddCustomer(s: Store, request: Option<Customer>, modelValid: bool): (r: (Reply<Customer>, Store))
    ensures request.None? || !modelValid ==> r.0.status == BadRequest && r.1 == s
    ensures request.Some? && modelValid && KeyedTable.Has(s.customers, CustomerKey, request.value.customerID) ==>
      r.0 == Say(BadRequest, ExistsMessage) && r.1 == s
    ensures request.Some? && modelValid && !KeyedTable.Has(s.customers, CustomerKey, request.value.customerID) ==>
      r.0 == With(Created, request.value) && r.1 == s.(customers := s.customers + [request.value])
    ensures r.1 == s.(customers := r.1.customers)
    ensures Valid(s) ==> Valid(r.1)
  {
    match request
    case None => (Plain(BadRequest), s)
    case Some(c) =>
      if !modelValid then (Plain(BadRequest), s)
      else if Repo.GetById(s.customers, Some(c.customerID)).Some? then (Say(BadRequest, ExistsMessage), s)
      else
        match Repo.Add(s.customers, Some(c))
        case Failure(_) => (Plain(InternalServerError), s)
        case Success((added, t)) => (With(Created, added), s.(customers := t))
  }

  /** EditCustomer: BadRequest with no change for a missing body or invalid
      model state, and BadRequest "Customer does not exist" for an absent
      CustomerID; otherwise the row becomes the request. The NotFound branch
      after the edit cannot be reached, because the edit follows a successful
      lookup. */
  function EditCustomer(s: Store, request: Option<Customer>, modelValid: bool): (r: (Reply<Customer>, Store))
    ensures request.None? || !modelValid ==> r.0.status == BadRequest && r.1 == s
    ensures request.Some? && modelValid && !KeyedTable.Has(s.customers, CustomerKey, request.value.customerID) ==>
      r.0 == Say(BadRequest, MissingMessage) && r.1 == s
    ensures request.Some? && modelValid && KeyedTable.Has(s.customers, CustomerKey, request.value.customerID) ==>
      && r.0 == With(Ok, request.value)
      && r.1.customers == Repo.Edit(s.customers, request.value).1
      && (Valid(s) ==> Repo.GetById(r.1.customers, Some(request.value.customerID)) == Some(request.value))
    ensures r.0.status != NotFound
    ensures r.1 == s.(customers := r.1.customers)
    ensures Valid(s) ==> Valid(r.1)
  {
    match request
    case None => (Plain(BadRequest), s)
    case Some(c) =>
      if !modelValid then (Plain(BadRequest), s)
      else if Repo.GetById(s.customers, Some(c.customerID)).None? then (Say(BadRequest, MissingMessage), s)
      else
        var (edited, t) := Repo.Edit(s.customers, c);
        KeyedTable.ReplacePreservesUnique(s.customers, CustomerKey, c, (edited, t));
        match edited
        case None => (Plain(NotFound), s)
        case Some(e) => (With(Ok, e), s.(customers := t))
  }

  /** DeleteCustomer: BadRequest for a null or blank id, NotFound with no
      change for an absent one; otherwise that row is removed. */
  function DeleteCustomer(s: Store, customerId: Option<string>): (r: (Reply<string>, Store))
    ensures Strings.IsNullOrWhiteSpace(customerId) ==> r.0.status == BadRequest && r.1 == s
    ensures !Strings.IsNullOrWhiteSpace(customerId) && !KeyedTable.Has(s.customers, CustomerKey, customerId.value) ==>
      r.0.status == NotFound && r.1 == s
    ensures !Strings.IsNullOrWhiteSpace(customerId) && KeyedTable.Has(s.customers, CustomerKey, customerId.value) ==>
      r.0.status == Ok && r.1.customers == Repo.Delete(s.customers, customerId).1
    ensures r.1 == s.(customers := r.1.customers)
    ensures Valid(s) ==> Valid(r.1)
    ensures Valid(s) && !Strings.IsNullOrWhiteSpace(customerId) ==> Repo.GetById(r.1.customers, customerId).None?
  {
    if Strings.IsNullOrWhiteSpace(customerId) then (Plain(BadRequest), s)
    else
      var (deleted, t) := Repo.Delete(s.customers, customerId);
      if !deleted then (Plain(NotFound), s)
      else (Plain(Ok), s.(customers := t))
  }
}
