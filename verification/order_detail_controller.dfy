/** OrderDetailController: the order-line endpoints. Request bodies are the
    five value columns of a line; AddOrderDetailRequest marks only
    non-nullable value types `[Required]`, so its model state cannot fail,
    while the edit request's validity is an input. */
module OrderDetailController {
  import opened Wrappers
  import opened Domain
  import opened Http
  import opened Database
  import KeyedTable
  import Join
  import Enrichment
  import Repo = OrderDetailRepository

  const NotFoundMessage: string := "Order detail not found!"
  const ExistsMessage: string := "Order detail already exists!"

  /** The list endpoint's enrichment: a ShipName dictionary over the orders
      and a ProductName dictionary over the products the lines refer to. It
      fails when a dictionary meets a repeated key; otherwise every line keeps
      its stored columns and shows what the single-row load finds, with
      "Unknown" in place of null. */
  function EnrichAll(orders: seq<Order>, products: seq<Product>, details: seq<OrderDetail>): (r: Option<seq<Enrichment.OrderDetailView>>)
    ensures KeyedTable.Unique(orders, OrderKey) && KeyedTable.Unique(products, ProductKey) ==> r.Some?
    ensures r.Some? ==> |r.value| == |details|
    ensures r.Some? ==> forall i :: 0 <= i < |details| ==>
      var single := Enrichment.LoadOrderAndProductDetails(orders, products, details[i]);
      && r.value[i].row == details[i]
      && r.value[i].orderName == Some(single.orderName.GetOr(Join.Unknown))
      && r.value[i].productName == Some(single.productName.GetOr(Join.Unknown))
  {
    var names := Join.BulkColumn(orders, OrderKey, Enrichment.ShipNameOf, details, (d: OrderDetail) => d.orderID);
    var productNames := Join.BulkColumn(products, ProductKey, Enrichment.ProductNameOf, details, (d: OrderDetail) => d.productID);
    if names.None? || productNames.None? then None
    else
      Some(seq(|details|, i requires 0 <= i < |details| =>
        Enrichment.OrderDetailView(details[i], Some(names.value[i]), Some(productNames.value[i]))))
  }

  /** GetAllOrderDetails: NotFound for an empty table; otherwise every line,
      in store order, with its display names. */
  function GetAllOrderDetails(s: Store): (r: Reply<seq<Enrichment.OrderDetailView>>)
    ensures |s.orderDetails| == 0 ==> r.status == NotFound
    ensures |s.orderDetails| > 0 && Valid(s) ==> r.status == Ok
    ensures r.status == Ok ==> r.body == EnrichAll(s.orders, s.products, s.orderDetails)
    ensures r.status in {Ok, NotFound, InternalServerError}
  {
    var details := Repo.GetAll(s.orderDetails);
    if |details| == 0 then Plain(NotFound)
    else
      match EnrichAll(s.orders, s.products, details)
      case None => Plain(InternalServerError)
      case Some(views) => With(Ok, views)
  }

  /** GetOrderDetailById: BadRequest for a null part, NotFound for an absent
      pair, otherwise the line with the names of the single-row load. */
  function GetOrderDetailById(s: Store, orderId: Option<int>, productId: Option<int>): (r: Reply<Enrichment.OrderDetailView>)
    ensures orderId.None? || productId.None? ==> r.status == BadRequest
    ensures orderId.Some? && productId.Some? ==>
      (r.status == NotFound <==> !KeyedTable.Has(s.orderDetails, OrderDetailKey, (orderId.value, productId.value)))
    ensures r.status == NotFound ==> r.message == Some(NotFoundMessage)
    ensures r.status == Ok ==>
      && r.body.Some?
      && Repo.GetById(s.orderDetails, orderId, productId) == Some(r.body.value.row)
      && r.body.value == Enrichment.LoadOrderAndProductDetails(s.orders, s.products, r.body.value.row)
    ensures r.status in {Ok, BadRequest, NotFound}
  {
    if orderId.None? || productId.None? then Plain(BadRequest)
    else
      match Repo.GetById(s.orderDetails, orderId, productId)
      case None => Say(NotFound, NotFoundMessage)
      case Some(d) => With(Ok, Enrichment.LoadOrderAndProductDetails(s.orders, s.products, d))
  }

  /** AddOrderDetail: BadRequest with no change for a missing body or a pair
      that is already stored; otherwise the line is appended and returned. */
  function AddOrderDetail(s: Store, request: Option<OrderDetail>): (r: (Reply<OrderDetail>, Store))
    ensures request.None? ==> r.0.status == BadRequest && r.1 == s
    ensures request.Some? && KeyedTable.Has(s.orderDetails, OrderDetailKey, OrderDetailKey(request.value)) ==>
      r.0 == Say(BadRequest, ExistsMessage) && r.1 == s
    ensures request.Some? && !KeyedTable.Has(s.orderDetails, OrderDetailKey, OrderDetailKey(request.value)) ==>
      r.0 == With(Created, request.value) && r.1 == s.(orderDetails := s.orderDetails + [request.value])
    ensures r.1 == s.(orderDetails := r.1.orderDetails)
    ensures Valid(s) ==> Valid(r.1)
  {
    match request
    case None => (Plain(BadRequest), s)
    case Some(d) =>
      if Repo.GetById(s.orderDetails, Some(d.orderID), Some(d.productID)).Some? then
        (Say(BadRequest, ExistsMessage), s)
      else
        match Repo.Add(s.orderDetails, Some(d))
        case Failure(_) => (Plain(InternalServerError), s)
        case Success((added, t)) => (With(Created, added), s.(orderDetails := t))
  }

  /** EditOrderDetail: BadRequest for a missing body or invalid model state,
      NotFound with no change for an absent pair; otherwise the line takes
      the request's columns and the request is returned. */
  function EditOrderDetail(s: Store, request: Option<OrderDetail>, modelValid: bool): (r: (Reply<OrderDetail>, Store))
    ensures request.None? || !modelValid ==> r.0.status == BadRequest && r.1 == s
    ensures request.Some? && modelValid && !KeyedTable.Has(s.orderDetails, OrderDetailKey, OrderDetailKey(request.value)) ==>
      r.0 == Say(NotFound, NotFoundMessage) && r.1 == s
    ensures request.Some? && modelValid && KeyedTable.Has(s.orderDetails, OrderDetailKey, OrderDetailKey(request.value)) ==>
      && r.0 == With(Ok, request.value)
      && r.1.orderDetails == Repo.Edit(s.orderDetails, request.value).1
      && (Valid(s) ==> Repo.GetById(r.1.orderDetails, Some(request.value.orderID), Some(request.value.productID)) == Some(request.value))
    ensures r.1 == s.(orderDetails := r.1.orderDetails)
    ensures Valid(s) ==> Valid(r.1)
  {
    match request
    case None => (Plain(BadRequest), s)
    case Some(d) =>
      if !modelValid then (Plain(BadRequest), s)
      else if Repo.GetById(s.orderDetails, Some(d.orderID), Some(d.productID)).None? then
        (Say(NotFound, NotFoundMessage), s)
      else
        var (edited, t) := Repo.Edit(s.orderDetails, d);
        KeyedTable.ReplacePreservesUnique(s.orderDetails, OrderDetailKey, d, (edited, t));
        match edited
        case None => (Say(NotFound, NotFoundMessage), s)
        case Some(e) => (With(Ok, e), s.(orderDetails := t))
  }

  /** DeleteOrderDetail: BadRequest for a null part, NotFound with no change
      for an absent pair; otherwise exactly that line is removed. */
  function DeleteOrderDetail(s: Store, orderId: Option<int>, productId: Option<int>): (r: (Reply<string>, Store))
    ensures orderId.None? || productId.None? ==> r.0.status == BadRequest && r.1 == s
    ensures orderId.Some? && productId.Some? && !KeyedTable.Has(s.orderDetails, OrderDetailKey, (orderId.value, productId.value)) ==>
      r.0 == Say(NotFound, NotFoundMessage) && r.1 == s
    ensures orderId.Some? && productId.Some? && KeyedTable.Has(s.orderDetails, OrderDetailKey, (orderId.value, productId.value)) ==>
      r.0.status == Ok && r.1.orderDetails == Repo.Delete(s.orderDetails, orderId, productId).1
    ensures r.1 == s.(orderDetails := r.1.orderDetails)
    ensures Valid(s) ==> Valid(r.1) && Repo.GetById(r.1.orderDetails, orderId, productId).None?
  {
    if orderId.None? || productId.None? then (Plain(BadRequest), s)
    else
      var (deleted, t) := Repo.Delete(s.orderDetails, orderId, productId);
      if !deleted then (Say(NotFound, NotFoundMessage), s)
      else (Plain(Ok), s.(orderDetails := t))
  }

  /** The list and the by-id endpoint show the same line: the list shows the
      by-id names with "Unknown" for null, so the two agree wherever both
      references resolve. */
  lemma {:induction false} ListAgreesWithById(s: Store, i: int)
    requires Valid(s)
    requires 0 <= i < |s.orderDetails|
    ensures var d := s.orderDetails[i];
      var one := GetOrderDetailById(s, Some(d.orderID), Some(d.productID));
      var all := GetAllOrderDetails(s);
      && one.status == Ok && all.status == Ok
      && all.body.value[i].row == one.body.value.row
      && all.body.value[i].orderName == Some(one.body.value.orderName.GetOr(Join.Unknown))
      && all.body.value[i].productName == Some(one.body.value.productName.GetOr(Join.Unknown))
  {
    var d := s.orderDetails[i];
    KeyedTable.LookupEveryRow(s.orderDetails, OrderDetailKey);
    assert Repo.GetById(s.orderDetails, Some(d.orderID), Some(d.productID)) == Some(d);
  }
}
