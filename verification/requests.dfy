/** The annotated request bodies and what their annotations demand. A
    non-nullable `int` marked `[Required]` can never be null, so it adds no
    check; a reference-typed property is nullable in the model because a JSON
    body can leave it out. */
module Requests {
  import opened Wrappers
  import opened Domain
  import Strings
  import opened DataAnnotations

  /** A string the annotations accept as `[Required]`. */
  predicate Present(v: Option<string>) {
    v.Some? && !Strings.AllWhiteSpace(v.value)
  }

  /** At most `n` UTF-16 code units (`String.Length`), or null. */
  predicate AtMost(v: Option<string>, n: nat) {
    v.None? || Strings.Utf16Length(v.value) <= n
  }

  /** Only ASCII digits (null and empty included). */
  predicate DigitsOnly(v: Option<string>) {
    v.None? || forall i :: 0 <= i < |v.value| ==> IsAsciiDigit(v.value[i])
  }

  /** Only ASCII capital letters (null and empty included). */
  predicate UpperOnly(v: Option<string>) {
    v.None? || forall i :: 0 <= i < |v.value| ==> IsAsciiUpper(v.value[i])
  }

  // ---- Category ----

  datatype AddCategoryRequest = AddCategoryRequest(categoryName: Option<string>, description: Text, picture: Bytes)

  /** `[Required] [MaxLength(15)] CategoryName`; Description and Picture carry
      no attribute. */
  function ValidateAddCategory(r: AddCategoryRequest): (errors: seq<FieldError>)
    ensures errors == [] <==> Present(r.categoryName) && AtMost(r.categoryName, 15)
    ensures !Present(r.categoryName) ==> FieldError("CategoryName", Required) in errors
    ensures !AtMost(r.categoryName, 15) ==> FieldError("CategoryName", MaxLength(15)) in errors
  {
    CheckTwo("CategoryName", Required, MaxLength(15), r.categoryName);
    Check("CategoryName", [Required, MaxLength(15)], r.categoryName)
  }

  // ---- CustomerCustomerDemo ----

  datatype AddCustomerCustomerDemoRequest = AddCustomerCustomerDemoRequest(customerID: Option<string>, customerTypeID: Option<string>)

  /** CustomerID: required, at most 5, capital letters only. */
  function ValidateCustomerIdOfLink(v: Option<string>): (errors: seq<FieldError>)
    ensures errors == [] <==> Present(v) && AtMost(v, 5) && UpperOnly(v)
    ensures !UpperOnly(v) ==> FieldError("CustomerID", RegularExpression(UpperLatin)) in errors
  {
    CheckThree("CustomerID", Required, MaxLength(5), RegularExpression(UpperLatin), v);
    Check("CustomerID", [Required, MaxLength(5), RegularExpression(UpperLatin)], v)
  }

  /** CustomerTypeID: required, at most 10, digits only. */
  function ValidateCustomerTypeIdOfLink(v: Option<string>): (errors: seq<FieldError>)
    ensures errors == [] <==> Present(v) && AtMost(v, 10) && DigitsOnly(v)
    ensures !DigitsOnly(v) ==> FieldError("CustomerTypeID", RegularExpression(Digits)) in errors
  {
    CheckThree("CustomerTypeID", Required, MaxLength(10), RegularExpression(Digits), v);
    Check("CustomerTypeID", [Required, MaxLength(10), RegularExpression(Digits)], v)
  }

  /** The request is valid exactly when both ids satisfy all their rules. */
  function ValidateAddCustomerCustomerDemo(r: AddCustomerCustomerDemoRequest): (errors: seq<FieldError>)
    ensures errors == [] <==>
      && Present(r.customerID) && AtMost(r.customerID, 5) && UpperOnly(r.customerID)
      && Present(r.customerTypeID) && AtMost(r.customerTypeID, 10) && DigitsOnly(r.customerTypeID)
    ensures !UpperOnly(r.customerID) ==> FieldError("CustomerID", RegularExpression(UpperLatin)) in errors
    ensures !DigitsOnly(r.customerTypeID) ==> FieldError("CustomerTypeID", RegularExpression(Digits)) in errors
  {
    ValidateCustomerIdOfLink(r.customerID) + ValidateCustomerTypeIdOfLink(r.customerTypeID)
  }

  // ---- CustomerDemographic ----

  datatype EditCustomerDemographicRequest = EditCustomerDemographicRequest(customerTypeID: Option<string>, customerDesc: Text)

  const CustomerTypeIdTooLong: string := "CustomerTypeID can't be longer than 10 characters."

  /** CustomerTypeID: required, digits only, at most 10 (with its own
      message); CustomerDesc carries no attribute. */
  function ValidateEditCustomerDemographic(r: EditCustomerDemographicRequest): (errors: seq<FieldError>)
    ensures errors == [] <==> Present(r.customerTypeID) && DigitsOnly(r.customerTypeID) && AtMost(r.customerTypeID, 10)
    ensures !AtMost(r.customerTypeID, 10) ==>
      FieldError("CustomerTypeID", StringLength(10, Some(CustomerTypeIdTooLong))) in errors
  {
    CheckThree("CustomerTypeID", Required, RegularExpression(Digits), StringLength(10, Some(CustomerTypeIdTooLong)), r.customerTypeID);
    Check("CustomerTypeID", [Required, RegularExpression(Digits), StringLength(10, Some(CustomerTypeIdTooLong))], r.customerTypeID)
  }

  // ---- EmployeeTerritory ----

  datatype AddEmployeeTerritoryRequest = AddEmployeeTerritoryRequest(employeeID: int, territoryID: Option<string>)

  /** TerritoryID: required and at most 20, any characters; EmployeeID is a
      plain `int` and always passes. */
  function ValidateAddEmployeeTerritory(r: AddEmployeeTerritoryRequest): (errors: seq<FieldError>)
    ensures errors == [] <==> Present(r.territoryID) && AtMost(r.territoryID, 20)
  {
    CheckTwo("TerritoryID", Required, StringLength(20, None), r.territoryID);
    Check("TerritoryID", [Required, StringLength(20, None)], r.territoryID)
  }

  // ---- Order ----

  datatype AddOrderRequest = AddOrderRequest(
    customerID: Text,
    employeeID: Option<int>,
    orderDate: Option<Date>,
    requiredDate: Option<Date>,
    shipVia: Option<int>,
    freight: Option<Decimal>,
    shipName: Text,
    shipAddress: Text,
    shipCity: Text,
    shipRegion: Text,
    shipPostalCode: Text,
    shipCountry: Text)

  /** Nothing is required; the string columns have maximum lengths. */
  function ValidateAddOrder(r: AddOrderRequest): (errors: seq<FieldError>)
    ensures errors == [] <==>
      && AtMost(r.customerID, 5) && AtMost(r.shipName, 40) && AtMost(r.shipAddress, 60)
      && AtMost(r.shipCity, 15) && AtMost(r.shipRegion, 15) && AtMost(r.shipPostalCode, 10)
      && AtMost(r.shipCountry, 15)
    ensures !AtMost(r.shipPostalCode, 10) ==> FieldError("ShipPostalCode", StringLength(10, None)) in errors
  {
    Check("CustomerID", [StringLength(5, None)], r.customerID)
      + Check("ShipName", [StringLength(40, None)], r.shipName)
      + Check("ShipAddress", [StringLength(60, None)], r.shipAddress)
      + Check("ShipCity", [StringLength(15, None)], r.shipCity)
      + Check("ShipRegion", [StringLength(15, None)], r.shipRegion)
      + Check("ShipPostalCode", [StringLength(10, None)], r.shipPostalCode)
      + Check("ShipCountry", [StringLength(15, None)], r.shipCountry)
  }

  /** Nothing is required: a request whose text fields are all null is
      valid whatever its ids, dates and freight. */
  lemma AllNullTextOrderIsValid(employeeID: Option<int>, orderDate: Option<Date>, requiredDate: Option<Date>, shipVia: Option<int>, freight: Option<Decimal>)
    ensures ValidateAddOrder(AddOrderRequest(None, employeeID, orderDate, requiredDate, shipVia, freight, None, None, None, None, None, None)) == []
  {
  }

  // ---- Region ----

  datatype AddRegionRequest = AddRegionRequest(regionID: int, regionDescription: Option<string>)
  datatype EditRegionRequest = EditRegionRequest(regionID: int, regionDescription: Option<string>)

  /** RegionDescription: required and at most 50. */
  function ValidateAddRegion(r: AddRegionRequest): (errors: seq<FieldError>)
    ensures errors == [] <==> Present(r.regionDescription) && AtMost(r.regionDescription, 50)
  {
    CheckTwo("RegionDescription", Required, StringLength(50, None), r.regionDescription);
    Check("RegionDescription", [Required, StringLength(50, None)], r.regionDescription)
  }

  /** The edit request carries the same attributes on the same properties as
      the add request, so it is checked as one. */
  function ValidateEditRegion(r: EditRegionRequest): (errors: seq<FieldError>)
    ensures errors == [] <==> Present(r.regionDescription) && AtMost(r.regionDescription, 50)
  {
    ValidateAddRegion(AddRegionRequest(r.regionID, r.regionDescription))
  }

  // ---- Shipper ----

  datatype AddShipperRequest = AddShipperRequest(companyName: Option<string>, phone: Text)
  datatype EditShipperRequest = EditShipperRequest(shipperID: int, companyName: Option<string>, phone: Text)

  /** CompanyName: required and at most 40; Phone: at most 24, or null. */
  function ValidateAddShipper(r: AddShipperRequest): (errors: seq<FieldError>)
    ensures errors == [] <==> Present(r.companyName) && AtMost(r.companyName, 40) && AtMost(r.phone, 24)
  {
    CheckTwo("CompanyName", Required, MaxLength(40), r.companyName);
    Check("CompanyName", [Required, MaxLength(40)], r.companyName) + Check("Phone", [MaxLength(24)], r.phone)
  }

  /** As for an add, on the same two properties; ShipperID carries no
      attribute. */
  function ValidateEditShipper(r: EditShipperRequest): (errors: seq<FieldError>)
    ensures errors == [] <==> Present(r.companyName) && AtMost(r.companyName, 40) && AtMost(r.phone, 24)
  {
    ValidateAddShipper(AddShipperRequest(r.companyName, r.phone))
  }

  // ---- Territory ----

  datatype EditTerritoryRequest = EditTerritoryRequest(territoryID: Option<string>, territoryDescription: Option<string>, regionID: int)

  /** TerritoryID: required, at most 20, digits only; TerritoryDescription:
      required and at most 50; RegionID always passes. */
  function ValidateEditTerritory(r: EditTerritoryRequest): (errors: seq<FieldError>)
    ensures errors == [] <==>
      && Present(r.territoryID) && AtMost(r.territoryID, 20) && DigitsOnly(r.territoryID)
      && Present(r.territoryDescription) && AtMost(r.territoryDescription, 50)
  {
    CheckThree("TerritoryID", Required, StringLength(20, None), RegularExpression(Digits), r.territoryID);
    CheckTwo("TerritoryDescription", Required, StringLength(50, None), r.territoryDescription);
    Check("TerritoryID", [Required, StringLength(20, None), RegularExpression(Digits)], r.territoryID)
      + Check("TerritoryDescription", [Required, StringLength(50, None)], r.territoryDescription)
  }
}
