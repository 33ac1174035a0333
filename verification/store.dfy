/** The whole database the controllers work on: one table per entity. */
module Database {
  import opened Domain
  import KeyedTable

  datatype Store = Store(
    categories: seq<Category>,
    suppliers: seq<Supplier>,
    shippers: seq<Shipper>,
    regions: seq<Region>,
    products: seq<Product>,
    customerDemographics: seq<CustomerDemographic>,
    territories: seq<Territory>,
    customers: seq<Customer>,
    employees: seq<Employee>,
    orders: seq<Order>,
    orderDetails: seq<OrderDetail>,
    customerCustomerDemos: seq<CustomerCustomerDemo>,
    employeeTerritories: seq<EmployeeTerritory>)

  /** Every table keeps its primary key unique. */
  predicate Valid(s: Store) {
    && KeyedTable.Unique(s.categories, CategoryKey)
    && KeyedTable.Unique(s.suppliers, SupplierKey)
    && KeyedTable.Unique(s.shippers, ShipperKey)
    && KeyedTable.Unique(s.regions, RegionKey)
    && KeyedTable.Unique(s.products, ProductKey)
    && KeyedTable.Unique(s.customerDemographics, CustomerDemographicKey)
    && KeyedTable.Unique(s.territories, TerritoryKey)
    && KeyedTable.Unique(s.customers, CustomerKey)
    && KeyedTable.Unique(s.employees, EmployeeKey)
    && KeyedTable.Unique(s.orders, OrderKey)
    && KeyedTable.Unique(s.orderDetails, OrderDetailKey)
    && KeyedTable.Unique(s.customerCustomerDemos, CustomerCustomerDemoKey)
    && KeyedTable.Unique(s.employeeTerritories, EmployeeTerritoryKey)
  }
}
