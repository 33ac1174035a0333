/** CustomerCustomerDemoController: the customer-to-demographic link
    endpoints. The class lacks `[ApiController]`, so model state is only
    what its actions check themselves. */
module CustomerCustomerDemoController {
  import opened Wrappers
  import opened Domain
  import opened Http
  import opened Database
  import KeyedTable
  import Join
  import Enrichment
  import Requests
  import Repo = CustomerCustomerDemoRepository

  const NotFoundMessage: string := "Customer customer demographics not found!"
  const ExistsMessage: string := "Customer customer demo already exists."
  const DeleteNotFoundMessage: string := "Customer customer demo not found!"

  /** The list endpoint's enrichment: a CompanyName dictionary over the
      customers and a CustomerDesc dictionary over the demographics the links
      refer to, read from the tables as stored. It fails when a dictionary
      meets a repeated key; otherwise every link keeps its columns and shows
      what the single-row load finds, with "Unknown" in place of null. */
  function EnrichAll(customers: seq<Customer>, demographics: seq<CustomerDemographic>, links: seq<CustomerCustomerDemo>): (r: Option<seq<Enrichment.CustomerCustomerDemoView>>)
    ensures KeyedTable.Unique(customers, CustomerKey) && KeyedTable.Unique(demographics, CustomerDemographicKey) ==> r.Some?
    ensures r.Some? ==> |r.value| == |links|
    ensures r.Some? ==> forall i :: 0 <= i < |links| ==>
      var single := Enrichment.LoadCustomerAndCustomerTypeDetails(customers, demographics, links[i]);
      && r.value[i].row == links[i]
      && r.value[i].customerName == Some(single.customerName.GetOr(Join.Unknown))
      && r.value[i].customerTypeDescription == Some(single.customerTypeDescription.GetOr(Join.Unknown))
  {
    var names := Join.BulkColumn(customers, CustomerKey, Enrichment.CompanyNameOf, links, (l: CustomerCustomerDemo) => l.customerID);
    var descriptions := Join.BulkColumn(demographics, CustomerDemographicKey, Enrichment.CustomerDescOf, links, (l: CustomerCustomerDemo) => l.customerTypeID);
    if names.None? || descriptions.None? then None
    else
      Some(seq(|links|, i requires 0 <= i < |links| =>
        Enrichment.CustomerCustomerDemoView(links[i], Some(names.value[i]), Some(descriptions.value[i]))))
  }

  /** GetAllCustomerCustomerDemos: NotFound for an empty table; otherwise
      every link, in store order, with its display fields. */
  function GetAllCustomerCustomerDemos(s: Store): (r: Reply<seq<Enrichment.CustomerCustomerDemoView>>)
    ensures |s.customerCustomerDemos| == 0 ==> r.status == NotFound
    ensures |s.customerCustomerDemos| > 0 && Valid(s) ==> r.status == Ok
    ensures r.status == Ok ==> r.body == EnrichAll(s.customers, s.customerDemographics, s.customerCustomerDemos)
    ensures r.status in {Ok, NotFound, InternalServerError}
  {
    var links := Repo.GetAll(s.customerCustomerDemos);
    if |links| == 0 then Plain(NotFound)
    else
      match EnrichAll(s.customers, s.customerDemographics, links)
      case None => Plain(InternalServerError)
      case Some(views) => With(Ok, views)
  }

  /** GetCustomerCustomerDemoById: BadRequest when either id is null,
      NotFound for an absent pair; otherwise the link with the fields of the
      single-row load, which stay null for a missing reference. */
  function GetCustomerCustomerDemoById(s: Store, customerId: Option<string>, customerTypeId: Option<string>): (r: Reply<Enrichment.CustomerCustomerDemoView>)
    ensures customerId.None? || customerTypeId.None? ==> r.status == BadRequest
    ensures customerId.Some? && customerTypeId.Some? ==>
      (r.status == NotFound <==> !KeyedTable.Has(s.customerCustomerDemos, CustomerCustomerDemoKey, (customerId.value, customerTypeId.value)))
    ensures r.status == NotFound ==> r.message == Some(NotFoundMessage)
    ensures r.status == Ok ==>
      && r.body.Some?
      && r.body.value.row == CustomerCustomerDemo(customerId.value, customerTypeId.value)
      && r.body.value == Enrichment.LoadCustomerAndCustomerTypeDetails(s.customers, s.customerDemographics, r.body.value.row)
    ensures r.status in {Ok, BadRequest, NotFound}
  {
    if customerId.None? || customerTypeId.None? then Plain(BadRequest)
    else
      match Repo.GetById(s.customerCustomerDemos, customerId, customerTypeId)
      case None => Say(NotFound, NotFoundMessage)
      case Some(l) => With(Ok, Enrichment.LoadCustomerAndCustomerTypeDetails(s.customers, s.customerDemographics, l))
  }

  /** AddCustomerCustomerDemo: BadRequest with no change for a missing body,
      a request the annotations refuse, or a pair already stored; otherwise
      the link is appended and returned. */
  function AddCustomerCustomerDemo(s: Store, request: Option<Requests.AddCustomerCustomerDemoRequest>): (r: (Reply<CustomerCustomerDemo>, Store))
    ensures request.None? ==> r.0.status == BadRequest && r.1 == s
    ensures request.Some? && Requests.ValidateAddCustomerCustomerDemo(request.value) != [] ==>
      r.0.status == BadRequest && r.1 == s
    ensures r.0.status == Created <==>
      && request.Some? && Requests.ValidateAddCustomerCustomerDemo(request.value) == []
      && !KeyedTable.Has(s.customerCustomerDemos, CustomerCustomerDemoKey, (request.value.customerID.value, request.value.customerTypeID.value))
    ensures r.0.status == Created ==>
      var l := CustomerCustomerDemo(request.value.customerID.value, request.value.customerTypeID.value);
      r.0.body == Some(l) && r.1 == s.(customerCustomerDemos := s.customerCustomerDemos + [l])
    ensures r.0.status != Created ==> r.0.status == BadRequest && r.1 == s
    ensures r.0.status == BadRequest && r.0.message.Some? ==> r.0.message == Some(ExistsMessage)
    ensures r.1 == s.(customerCustomerDemos := r.1.customerCustomerDemos)
    ensures Valid(s) ==> Valid(r.1)
  {
    match request
    case None => (Plain(BadRequest), s)
    case Some(q) =>
      if Requests.ValidateAddCustomerCustomerDemo(q) != [] then (Plain(BadRequest), s)
      else if Repo.GetById(s.customerCustomerDemos, q.customerID, q.customerTypeID).Some? then
        (Say(BadRequest, ExistsMessage), s)
      else
        match Repo.Add(s.customerCustomerDemos, Some(CustomerCustomerDemo(q.customerID.value, q.customerTypeID.value)))
        case Failure(_) => (Plain(InternalServerError), s)
        case Success((added, t)) => (With(Created, added), s.(customerCustomerDemos := t))
  }

  /** DeleteCustomerCustomerDemo: BadRequest when either id is null; otherwise
      the outcome follows the repository's answer `deleted`, NotFound for
      false. The repository delete itself has no body, so its effect on the
      table is not modelled. */
  function DeleteCustomerCustomerDemo(customerId: Option<string>, customerTypeId: Option<string>, deleted: bool): (r: Reply<string>)
    ensures customerId.None? || customerTypeId.None? ==> r.status == BadRequest
    ensures customerId.Some? && customerTypeId.Some? ==>
      (if deleted then r.status == Ok else r == Say(NotFound, DeleteNotFoundMessage))
  {
    if customerId.None? || customerTypeId.None? then Plain(BadRequest)
    else if !deleted then Say(NotFound, DeleteNotFoundMessage)
    else Plain(Ok)
  }

  /** The list and the by-id endpoint show the same link: the list shows the
      by-id fields with "Unknown" for null, so the two agree wherever both
      references resolve to non-null values. */
  lemma {:induction false} ListAgreesWithById(s: Store, i: int)
    requires Valid(s)
    requires 0 <= i < |s.customerCustomerDemos|
    ensures var l := s.customerCustomerDemos[i];
      var one := GetCustomerCustomerDemoById(s, Some(l.customerID), Some(l.customerTypeID));
      var all := GetAllCustomerCustomerDemos(s);
      && one.status == Ok && all.status == Ok
      && all.body.value[i].row == one.body.value.row
      && all.body.value[i].customerName == Some(one.body.value.customerName.GetOr(Join.Unknown))
      && all.body.value[i].customerTypeDescription == Some(one.body.value.customerTypeDescription.GetOr(Join.Unknown))
  {
    var l := s.customerCustomerDemos[i];
    KeyedTable.LookupEveryRow(s.customerCustomerDemos, CustomerCustomerDemoKey);
    assert Repo.GetById(s.customerCustomerDemos, Some(l.customerID), Some(l.customerTypeID)) == Some(l);
  }
}
