/** The single-row loads of the link classes. Each link row carries two
    display fields that are not stored (`[NotMapped]`): a view here pairs the
    stored row with them, so loading cannot touch a stored column. Each
    display field is the referenced row's column found by one first-or-default
    lookup, and stays null when there is no such row. */
module Enrichment {
  import opened Wrappers
  import opened Domain
  import Join

  datatype OrderDetailView = OrderDetailView(row: OrderDetail, orderName: Option<string>, productName: Option<string>)
  datatype CustomerCustomerDemoView = CustomerCustomerDemoView(row: CustomerCustomerDemo, customerName: Option<string>, customerTypeDescription: Option<string>)
  datatype EmployeeTerritoryView = EmployeeTerritoryView(row: EmployeeTerritory, employee: Option<string>, territory: Option<string>)

  /** The columns the loads select. */
  function ShipNameOf(o: Order): Option<string> { o.shipName }
  function ProductNameOf(p: Product): Option<string> { Some(p.productName) }
  function CompanyNameOf(c: Customer): Option<string> { Some(c.companyName) }
  function CustomerDescOf(d: CustomerDemographic): Option<string> { d.customerDesc }
  function FullNameOf(e: Employee): Option<string> { Some(e.firstName + " " + e.lastName) }
  function TerritoryDescriptionOf(t: Territory): Option<string> { Some(t.territoryDescription) }

  /** LoadOrderAndProductDetailsAsync: OrderName is the ShipName of the order
      with the row's OrderID, ProductName the name of the product with its
      ProductID. */
  function LoadOrderAndProductDetails(orders: seq<Order>, products: seq<Product>, d: OrderDetail): (v: OrderDetailView)
    ensures v.row == d
    ensures Join.IsColumnOfFirst(orders, OrderKey, ShipNameOf, d.orderID, v.orderName)
    ensures Join.IsColumnOfFirst(products, ProductKey, ProductNameOf, d.productID, v.productName)
  {
    OrderDetailView(d,
      Join.FirstOrDefault(orders, OrderKey, ShipNameOf, d.orderID),
      Join.FirstOrDefault(products, ProductKey, ProductNameOf, d.productID))
  }

  /** LoadCustomerAndCustomerTypeDetailsAsync: CustomerName is the
      CompanyName of the customer with the row's CustomerID,
      CustomerTypeDescription the CustomerDesc of the demographic with its
      CustomerTypeID. */
  function LoadCustomerAndCustomerTypeDetails(customers: seq<Customer>, demographics: seq<CustomerDemographic>, l: CustomerCustomerDemo): (v: CustomerCustomerDemoView)
    ensures v.row == l
    ensures Join.IsColumnOfFirst(customers, CustomerKey, CompanyNameOf, l.customerID, v.customerName)
    ensures Join.IsColumnOfFirst(demographics, CustomerDemographicKey, CustomerDescOf, l.customerTypeID, v.customerTypeDescription)
  {
    CustomerCustomerDemoView(l,
      Join.FirstOrDefault(customers, CustomerKey, CompanyNameOf, l.customerID),
      Join.FirstOrDefault(demographics, CustomerDemographicKey, CustomerDescOf, l.customerTypeID))
  }

  /** LoadEmployeeAndTerritoryDetailsAsync: Employee is FirstName, a space and
      LastName of the employee with the row's EmployeeID; Territory is the
      TerritoryDescription, untrimmed, of the territory with its TerritoryID. */
  function LoadEmployeeAndTerritoryDetails(employees: seq<Employee>, territories: seq<Territory>, l: EmployeeTerritory): (v: EmployeeTerritoryView)
    ensures v.row == l
    ensures Join.IsColumnOfFirst(employees, EmployeeKey, FullNameOf, l.employeeID, v.employee)
    ensures Join.IsColumnOfFirst(territories, TerritoryKey, TerritoryDescriptionOf, l.territoryID, v.territory)
  {
    EmployeeTerritoryView(l,
      Join.FirstOrDefault(employees, EmployeeKey, FullNameOf, l.employeeID),
      Join.FirstOrDefault(territories, TerritoryKey, TerritoryDescriptionOf, l.territoryID))
  }
}
