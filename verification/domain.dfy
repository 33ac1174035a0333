/** The stored rows of the Northwind tables. Each datatype holds the key and
    the columns the repositories read or write; display-only (`[NotMapped]`)
    fields of the link rows are not part of a stored row and live in the
    enrichment views instead. Money, discounts and dates are only ever copied
    or compared, so they are opaque integers here. */
module Domain {
  import opened Wrappers

  /** A `decimal` column (prices, freight, salary); only copied. */
  type Decimal = int
  /** A `float` column (order-line discount); only copied. */
  type Float = int
  /** A `DateTime` column; only copied and compared. */
  type Date = int
  /** A nullable `byte[]` column (pictures, photos). */
  type Bytes = Option<seq<bv8>>
  /** A nullable `string` column. */
  type Text = Option<string>

  datatype Category = Category(
    categoryID: int,
    categoryName: string,
    description: Text,
    picture: Bytes)

  datatype Supplier = Supplier(
    supplierID: int,
    companyName: string,
    contactName: Text,
    contactTitle: Text,
    address: Text,
    city: Text,
    region: Text,
    postalCode: Text,
    country: Text,
    phone: Text,
    fax: Text,
    homePage: Text)

  datatype Shipper = Shipper(
    shipperID: int,
    companyName: string,
    phone: Text)

  datatype Region = Region(
    regionID: int,
    regionDescription: string)

  datatype Product = Product(
    productID: int,
    productName: string,
    supplierID: Option<int>,
    categoryID: Option<int>,
    quantityPerUnit: Text,
    unitPrice: Option<Decimal>,
    unitsInStock: Option<int>,
    unitsOnOrder: Option<int>,
    reorderLevel: Option<int>,
    discontinued: bool)

  datatype CustomerDemographic = CustomerDemographic(
    customerTypeID: string,
    customerDesc: Text)

  datatype Territory = Territory(
    territoryID: string,
    territoryDescription: string,
    regionID: int)

  datatype Customer = Customer(
    customerID: string,
    companyName: string,
    contactName: Text,
    contactTitle: Text,
    address: Text,
    city: Text,
    region: Text,
    postalCode: Text,
    country: Text,
    phone: Text,
    fax: Text)

  datatype Employee = Employee(
    employeeID: int,
    lastName: string,
    firstName: string,
    title: Text,
    titleOfCourtesy: Text,
    birthDate: Option<Date>,
    hireDate: Option<Date>,
    address: Text,
    city: Text,
    region: Text,
    postalCode: Text,
    country: Text,
    homePhone: Text,
    extension: Text,
    photo: Bytes,
    notes: Text,
    reportsTo: Option<int>,
    photoPath: Text,
    salary: Option<Decimal>)

  /** An order: OrderID and the twelve columns an edit copies. */
  datatype Order = Order(
    orderID: int,
    customerID: Text,
    employeeID: Option<int>,
    orderDate: Option<Date>,
    requiredDate: Option<Date>,
    shipVia: Option<int>,
    freight: Option<Decimal>,
    shipName: Text,
    shipAddress: Text,
    shipCity: Text,
    shipRegion: Text,
    shipPostalCode: Text,
    shipCountry: Text)

  /** A line of an order: composite key (OrderID, ProductID). */
  datatype OrderDetail = OrderDetail(
    orderID: int,
    productID: int,
    unitPrice: Decimal,
    quantity: int,
    discount: Float)

  /** Customer-to-demographic link: composite key (CustomerID, CustomerTypeID). */
  datatype CustomerCustomerDemo = CustomerCustomerDemo(
    customerID: string,
    customerTypeID: string)

  /** Employee-to-territory link: composite key (EmployeeID, TerritoryID). */
  datatype EmployeeTerritory = EmployeeTerritory(
    employeeID: int,
    territoryID: string)

  function CategoryKey(c: Category): int { c.categoryID }
  function SupplierKey(s: Supplier): int { s.supplierID }
  function ShipperKey(s: Shipper): int { s.shipperID }
  function RegionKey(r: Region): int { r.regionID }
  function ProductKey(p: Product): int { p.productID }
  function CustomerDemographicKey(d: CustomerDemographic): string { d.customerTypeID }
  function TerritoryKey(t: Territory): string { t.territoryID }
  function CustomerKey(c: Customer): string { c.customerID }
  function EmployeeKey(e: Employee): int { e.employeeID }
  function OrderKey(o: Order): int { o.orderID }
  function OrderDetailKey(d: OrderDetail): (int, int) { (d.orderID, d.productID) }
  function CustomerCustomerDemoKey(l: CustomerCustomerDemo): (string, string) { (l.customerID, l.customerTypeID) }
  function EmployeeTerritoryKey(l: EmployeeTerritory): (int, string) { (l.employeeID, l.territoryID) }
}
