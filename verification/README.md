# Northwind REST API, modelled in Dafny

This project models the logic of the Northwind REST API, an ASP.NET Core CRUD
service over the Northwind database. The database becomes an in-memory
`Store`. Each of the thirteen tables in it is a sequence of immutable records,
and `Database.Valid` says that every table's primary key is unique. The
following are pure functions:

- **Repositories.** Every repository operation: list-all, get-by-key (the first
  match, or null), add (a null argument throws), edit (look up by key, copy the
  non-key columns, or return null), and delete (true or false).
  - The Region, Territory and CustomerDemographic repositories trim one column
    (RegionDescription, TerritoryDescription, CustomerTypeID) in the rows that
    list-all and get-by-key return. The lookups inside edit and delete do not
    trim.
  - The three link tables have composite keys.
- **Enrichment of link rows.**
  - The single-row loads of the domain classes use first-or-default lookups
    and leave null when nothing is found.
  - The list endpoints use dictionaries and show `"Unknown"` when nothing is
    found.
- **Controller actions.** The controllers that do more than pass a call
  through. Each action maps `(store, request)` to `(reply, store')`, where the
  reply carries an HTTP status and, where it matters, the body and the message
  text.
- **Request validation.** The DataAnnotations rules of the request classes,
  the FluentValidation validators of the category requests, and the
  birth-date rule of the employee actions.

Files:
- **Common modules.**
  - `wrappers.dfy`: Option and Result.
  - `text.dfy`: the `System.String` operations used.
  - `keyed_table.dfy`: generic table operations and their specifications.
  - `domain.dfy`: the entity records and their keys.
  - `store.dfy`: the store and its invariant.
  - `http.dfy`: replies.
- **Repositories.** One `*_repository.dfy` per repository.
- **Enrichment.**
  - `enrichment.dfy`: the single-row loads.
  - `join.dfy`: first-or-default lookups and the dictionaries of the list
    endpoints.
- **Validation.**
  - `data_annotations.dfy` and `requests.dfy`: the annotated requests.
  - `category_validators.dfy`: the Category validators.
  - `employee_dates.dfy`: the employee date rule.
- **Controllers.** One `*_controller.dfy` per controller.

Three places where one part of the program behaves differently from another:
- **Only the list endpoints show `"Unknown"`.** They substitute it for a
  missing name (Controllers/OrderDetailController.cs:57-58,
  Controllers/CustomerCustomerDemoController.cs:55-56,
  Controllers/EmployeeTeritoryController.cs:57-58). The single-row loads
  (Domain/OrderDetail.cs:28-39, Domain/CustomerCustomerDemo.cs:26-37,
  Domain/EmployeeTerritory.cs:25-36) leave it null, and the by-id endpoints return
  that null.
- **The employee date rule does not stop an add or an edit** (see Findings).
- **Lengths are UTF-16 code units.** Every length limit, of the annotations
  and of the Category validators alike, compares `String.Length`. A character
  outside the Basic Multilingual Plane counts as two.

## Model

| member | source | states |
|---|---|---|
| KeyedTable.Get | REST-API/Repositories/CategoryRepository.cs:22-25 | get-by-key: null for a null or absent id; otherwise the first row whose key equals the id |
| KeyedTable.Insert | REST-API/Repositories/CategoryRepository.cs:27-36 | add: a null row is an error; a key already present is rejected by the store; otherwise the row is appended and returned, and uniqueness is kept |
| KeyedTable.Update | REST-API/Repositories/CategoryRepository.cs:38-54 | edit: an absent key gives null and no change; otherwise only the first matching row changes, into the copy of the argument onto it, and that row is returned |
| KeyedTable.Remove | REST-API/Repositories/CategoryRepository.cs:56-68 | delete: false and no change for an absent id; otherwise true, and exactly the first matching row is removed |
| KeyedTable.RemovePreservesUnique | REST-API/Repositories/CategoryRepository.cs:65-67 | removing a row keeps the keys unique |
| KeyedTable.LookupEveryRow | REST-API/Repositories/CategoryRepository.cs:17-25 | in a table with unique keys, every listed row is what get-by-key returns for its own key |
| KeyedTable.ReplacePreservesUnique | REST-API/Repositories/CategoryRepository.cs:38-54 | an edit keeps keys unique, and afterwards get-by-key returns the argument |
| KeyedTable.InsertThenRemove | REST-API/Repositories/CategoryRepository.cs:27-68 | add and delete are inverse: adding a row whose key is free, then deleting that key, gives back the original table and reports true |
| KeyedTable.ReplaceTwice | REST-API/Repositories/CategoryRepository.cs:38-54 | an edit is idempotent: the same edit applied again returns the same row and changes nothing more |
| CategoryRepository.GetAll | REST-API/Repositories/CategoryRepository.cs:17-20 | every stored row, unchanged and in store order; each one is found by get-by-key on its id |
| CategoryRepository.GetById | REST-API/Repositories/CategoryRepository.cs:22-25 | the first row whose CategoryID equals the id; null for a null or absent id |
| CategoryRepository.Assigned | REST-API/Repositories/CategoryRepository.cs:33-35 | the stored row has the store-assigned key, and every other column is the argument's |
| CategoryRepository.Add | REST-API/Repositories/CategoryRepository.cs:27-36 | a null argument gives the null-argument error and no change; otherwise the row with its assigned id is appended and returned, and get-by-key then finds it |
| CategoryRepository.Copy | REST-API/Repositories/CategoryRepository.cs:47-51 | CategoryName, Description and Picture come from the argument and CategoryID stays, so a row with the argument's id becomes the argument |
| CategoryRepository.Edit | REST-API/Repositories/CategoryRepository.cs:38-54 | an absent id gives null and no change; otherwise the first row with that id becomes the argument, every other row stays, and uniqueness is kept |
| CategoryRepository.Delete | REST-API/Repositories/CategoryRepository.cs:56-68 | false and no change when absent; otherwise the row is removed and true is returned, and a later get-by-key gives null |
| SupplierRepository.GetAll | REST-API/Repositories/SupplierRepository.cs:17-20 | every stored row, in order; each one is found by its own id |
| SupplierRepository.GetById | REST-API/Repositories/SupplierRepository.cs:22-25 | the first row with a matching SupplierID, or null |
| SupplierRepository.Assigned | REST-API/Repositories/SupplierRepository.cs:33-36 | the stored row has the store-assigned key and the argument's other columns |
| SupplierRepository.Add | REST-API/Repositories/SupplierRepository.cs:27-37 | a null argument throws; otherwise the row is inserted and returned, and get-by-key finds it |
| SupplierRepository.Copy | REST-API/Repositories/SupplierRepository.cs:48-60 | the 11 columns CompanyName through HomePage come from the argument and SupplierID stays |
| SupplierRepository.Edit | REST-API/Repositories/SupplierRepository.cs:39-63 | an absent id gives null and no change; otherwise only the matching row changes, into the argument |
| SupplierRepository.Delete | REST-API/Repositories/SupplierRepository.cs:65-77 | false with no change when absent; otherwise the row is removed and true is returned |
| ShipperRepository.GetAll | REST-API/Repositories/ShipperRepository.cs:17-20 | every stored row, in order; each one is found by its own id |
| ShipperRepository.GetById | REST-API/Repositories/ShipperRepository.cs:22-25 | the first row with a matching ShipperID, or null |
| ShipperRepository.Assigned | REST-API/Repositories/ShipperRepository.cs:33-36 | the stored row has the store-assigned key and the argument's other columns |
| ShipperRepository.Add | REST-API/Repositories/ShipperRepository.cs:27-37 | a null argument throws; otherwise the row is inserted and returned |
| ShipperRepository.Copy | REST-API/Repositories/ShipperRepository.cs:48-51 | only CompanyName and Phone come from the argument; ShipperID stays |
| ShipperRepository.Edit | REST-API/Repositories/ShipperRepository.cs:39-54 | an absent id gives null and no change; otherwise the matching row becomes the argument and is returned |
| ShipperRepository.Delete | REST-API/Repositories/ShipperRepository.cs:56-68 | the boolean reflects presence, and only the matching row is removed |
| ProductRepository.GetAll | REST-API/Repositories/ProductRepository.cs:17-20 | every stored row, in order; each one is found by its own id |
| ProductRepository.GetById | REST-API/Repositories/ProductRepository.cs:22-25 | the first row with a matching ProductID, or null |
| ProductRepository.Assigned | REST-API/Repositories/ProductRepository.cs:33-36 | the stored row has the store-assigned key and the argument's other columns |
| ProductRepository.Add | REST-API/Repositories/ProductRepository.cs:27-37 | a null argument throws; otherwise the row is inserted and returned |
| ProductRepository.Copy | REST-API/Repositories/ProductRepository.cs:47-57 | the 9 columns ProductName through Discontinued come from the argument; ProductID stays |
| ProductRepository.Edit | REST-API/Repositories/ProductRepository.cs:39-60 | an absent id gives null and no change; otherwise the matching row becomes the argument |
| ProductRepository.Delete | REST-API/Repositories/ProductRepository.cs:62-73 | false when absent; otherwise the row is removed and true is returned |
| CustomerRepository.GetAll | REST-API/Repositories/CustomerRepository.cs:17-20 | every stored row, in order; each one is found by its own id |
| CustomerRepository.GetById | REST-API/Repositories/CustomerRepository.cs:22-25 | the first row with an equal string CustomerID, or null |
| CustomerRepository.Add | REST-API/Repositories/CustomerRepository.cs:27-37 | a null argument throws; a CustomerID already present is rejected; otherwise the row is inserted and returned |
| CustomerRepository.Copy | REST-API/Repositories/CustomerRepository.cs:48-59 | the 10 columns CompanyName through Fax come from the argument; CustomerID stays |
| CustomerRepository.Edit | REST-API/Repositories/CustomerRepository.cs:39-62 | an absent id gives null and no change; otherwise the matching row becomes the argument |
| CustomerRepository.Delete | REST-API/Repositories/CustomerRepository.cs:65-77 | false when absent; otherwise the row is removed and true is returned |
| EmployeeRepository.GetAll | REST-API/Repositories/EmployeeRepository.cs:17-20 | every stored row, in order; each one is found by its own id |
| EmployeeRepository.GetById | REST-API/Repositories/EmployeeRepository.cs:22-25 | the first row with a matching EmployeeID, or null |
| EmployeeRepository.Assigned | REST-API/Repositories/EmployeeRepository.cs:33-36 | the stored row has the store-assigned key and the argument's other columns |
| EmployeeRepository.Add | REST-API/Repositories/EmployeeRepository.cs:27-37 | a null argument throws; otherwise the row is inserted and returned |
| EmployeeRepository.Copy | REST-API/Repositories/EmployeeRepository.cs:48-67 | the 18 columns LastName through Salary come from the argument; EmployeeID stays |
| EmployeeRepository.Edit | REST-API/Repositories/EmployeeRepository.cs:39-70 | an absent id gives null and no change; otherwise the matching row becomes the argument |
| EmployeeRepository.Delete | REST-API/Repositories/EmployeeRepository.cs:72-83 | false when absent; otherwise the row is removed and true is returned |
| OrderRepository.GetAll | REST-API/Repositories/OrderRepository.cs:17-20 | every stored row, in order; each one is found by its own id |
| OrderRepository.GetById | REST-API/Repositories/OrderRepository.cs:22-25 | the first row with a matching OrderID, or null |
| OrderRepository.Assigned | REST-API/Repositories/OrderRepository.cs:33-36 | the stored row has the store-assigned key and the argument's other columns |
| OrderRepository.Add | REST-API/Repositories/OrderRepository.cs:27-37 | a null argument throws; otherwise the row is inserted and returned |
| OrderRepository.Copy | REST-API/Repositories/OrderRepository.cs:48-61 | the 12 columns CustomerID through ShipCountry come from the argument; OrderID stays |
| OrderRepository.Edit | REST-API/Repositories/OrderRepository.cs:39-64 | an absent id gives null and no change; otherwise the matching row becomes the argument |
| OrderRepository.Delete | REST-API/Repositories/OrderRepository.cs:66-78 | false when absent; otherwise the row is removed and true is returned |
| RegionRepository.Trimmed | REST-API/Repositories/RegionRepository.cs:20 | the row as read: RegionDescription with its leading and trailing white space cut off, so it is trimmed; every other column is as stored; an already-trimmed row is unchanged |
| RegionRepository.GetAll | REST-API/Repositories/RegionRepository.cs:17-22 | every row, in order, with RegionDescription trimmed; a table that is already trimmed reads back unchanged; each row read is what get-by-key returns |
| RegionRepository.GetById | REST-API/Repositories/RegionRepository.cs:24-32 | the found row with its description trimmed, or null when the id is absent |
| RegionRepository.Add | REST-API/Repositories/RegionRepository.cs:34-44 | a null argument throws; otherwise the argument, with its client-supplied RegionID, is appended untrimmed |
| RegionRepository.Copy | REST-API/Repositories/RegionRepository.cs:54-56 | only RegionDescription comes from the argument, as given |
| RegionRepository.Edit | REST-API/Repositories/RegionRepository.cs:46-59 | an absent id gives null and no change; otherwise the row becomes the argument, stored untrimmed |
| RegionRepository.Delete | REST-API/Repositories/RegionRepository.cs:61-73 | false with no change when absent; otherwise the row is removed and true is returned |
| TerritoryRepository.Trimmed | REST-API/Repositories/TerritoryRepository.cs:23 | the row as read: TerritoryDescription trimmed; the other columns are as stored |
| TerritoryRepository.GetAll | REST-API/Repositories/TerritoryRepository.cs:17-27 | every row, in order, with TerritoryDescription trimmed |
| TerritoryRepository.GetById | REST-API/Repositories/TerritoryRepository.cs:29-39 | the found row with its description trimmed, or null when absent |
| TerritoryRepository.Add | REST-API/Repositories/TerritoryRepository.cs:41-51 | a null argument throws; otherwise the argument is appended and returned |
| TerritoryRepository.Copy | REST-API/Repositories/TerritoryRepository.cs:62-65 | TerritoryDescription and RegionID come from the argument; TerritoryID stays |
| TerritoryRepository.Edit | REST-API/Repositories/TerritoryRepository.cs:53-68 | an absent TerritoryID gives null and no change; otherwise the row becomes the argument |
| TerritoryRepository.Delete | REST-API/Repositories/TerritoryRepository.cs:70-82 | false when absent; otherwise the row is removed and true is returned |
| CustomerDemographicRepository.Trimmed | REST-API/Repositories/CustomerDemographicRepository.cs:20 | the row as read: the key CustomerTypeID trimmed, CustomerDesc as stored |
| CustomerDemographicRepository.GetAll | REST-API/Repositories/CustomerDemographicRepository.cs:17-22 | every row, in order, with its key trimmed |
| CustomerDemographicRepository.GetById | REST-API/Repositories/CustomerDemographicRepository.cs:24-33 | looks up by equality on the untrimmed stored key and trims the key of the found row; null when absent |
| CustomerDemographicRepository.Add | REST-API/Repositories/CustomerDemographicRepository.cs:35-46 | a null argument throws; otherwise the argument is appended as given and returned |
| CustomerDemographicRepository.Copy | REST-API/Repositories/CustomerDemographicRepository.cs:57-59 | only CustomerDesc comes from the argument; the key stays |
| CustomerDemographicRepository.Edit | REST-API/Repositories/CustomerDemographicRepository.cs:48-62 | an absent key gives null and no change; otherwise the row becomes the argument |
| CustomerDemographicRepository.Delete | REST-API/Repositories/CustomerDemographicRepository.cs:64-76 | false when absent; otherwise the row is removed and true is returned |
| OrderDetailRepository.GetAll | REST-API/Repositories/OrderDetailRepository.cs:17-20 | every line, in order; each one is found by its own key pair |
| OrderDetailRepository.GetById | REST-API/Repositories/OrderDetailRepository.cs:22-26 | a line matches only when both OrderID and ProductID are equal; a null part matches nothing |
| OrderDetailRepository.Add | REST-API/Repositories/OrderDetailRepository.cs:28-38 | a null argument throws; otherwise the line is inserted and returned |
| OrderDetailRepository.Copy | REST-API/Repositories/OrderDetailRepository.cs:50-54 | only UnitPrice, Quantity and Discount come from the argument; both key parts stay |
| OrderDetailRepository.Edit | REST-API/Repositories/OrderDetailRepository.cs:40-57 | an absent pair gives null and no change; otherwise the line becomes the argument and the argument itself is returned |
| OrderDetailRepository.Delete | REST-API/Repositories/OrderDetailRepository.cs:59-72 | false when the pair is absent; otherwise exactly that line is removed and true is returned |
| CustomerCustomerDemoRepository.GetAll | REST-API/Repositories/CustomerCustomerDemoRepository.cs:17-20 | every link row, unchanged |
| CustomerCustomerDemoRepository.GetById | REST-API/Repositories/CustomerCustomerDemoRepository.cs:22-25 | a row matches only when both CustomerID and CustomerTypeID are equal |
| CustomerCustomerDemoRepository.Add | REST-API/Repositories/CustomerCustomerDemoRepository.cs:27-37 | a null argument throws; otherwise the row is inserted and returned |
| CustomerCustomerDemoRepository.Copy | REST-API/Repositories/CustomerCustomerDemoRepository.cs:48-51 | both key columns are reassigned from the argument |
| CustomerCustomerDemoRepository.Edit | REST-API/Repositories/CustomerCustomerDemoRepository.cs:39-54 | an absent pair gives null; a present pair is reassigned the values it matched on, so the table is unchanged and the stored row is returned |
| EmployeeTerritoryRepository.GetAll | REST-API/Repositories/EmployeeTerritoryRepository.cs:17-20 | every link row, unchanged |
| EmployeeTerritoryRepository.GetById | REST-API/Repositories/EmployeeTerritoryRepository.cs:22-25 | a row matches only when both EmployeeID and TerritoryID are equal |
| EmployeeTerritoryRepository.Add | REST-API/Repositories/EmployeeTerritoryRepository.cs:27-37 | a null argument throws; otherwise the row is inserted and returned |
| EmployeeTerritoryRepository.Delete | REST-API/Repositories/EmployeeTerritoryRepository.cs:39-50 | false with no change when the pair is absent; otherwise exactly that row is removed and true is returned |
| Strings.Trim | REST-API/Repositories/RegionRepository.cs:20 | the result is the input with a white-space prefix and a white-space suffix cut off, and neither of its ends is white space; a trimmed string is its own trim |
| Strings.TrimIdempotent | REST-API/Repositories/RegionRepository.cs:20 | trimming twice is trimming once |
| Strings.BlankIffTrimEmpty | REST-API/Controllers/CustomerController.cs:176 | a string is blank exactly when its trim is empty |
| Strings.TrimNullable | REST-API/Controllers/EmployeeTeritoryController.cs:97 | `?.Trim()`: null stays null, and any other value is trimmed |
| Strings.TrimIgnoresPadding | REST-API/Repositories/RegionRepository.cs:20 | a value padded with white space, as a fixed-width column returns it, trims to the same string as the unpadded value |
| Strings.Utf16Length | REST-API/Validators/Category/AddCategoryValidator.cs:11 | `String.Length`: between the number of characters and twice that, a character outside the Basic Multilingual Plane counting two |
| Strings.BmpLength | REST-API/Validators/Category/AddCategoryValidator.cs:11 | for text inside the Basic Multilingual Plane, the UTF-16 length is the number of characters |
| Strings.AstralLength | REST-API/Validators/Category/AddCategoryValidator.cs:11 | text made only of characters outside the Basic Multilingual Plane has twice as many code units as characters |
| Join.FirstOrDefault | REST-API/Domain/OrderDetail.cs:30-33 | the column of the first row with the key, or null when there is none |
| Join.ToDictionary | REST-API/Controllers/OrderDetailController.cs:44-50 | fails exactly when two wanted rows share a key; otherwise its keys are the wanted keys present in the table, and each maps to its row's value |
| Join.TryGetOrUnknown | REST-API/Controllers/OrderDetailController.cs:54-58 | the value stored under the key, or `"Unknown"` when the key is absent or its value is null |
| Join.DictionaryAgreesWithFirstOrDefault | REST-API/Controllers/OrderDetailController.cs:44-58 | with no repeated wanted key, the dictionary lookup shows the first-or-default column, with `"Unknown"` in place of null |
| Join.UniqueHasNoDuplicate | REST-API/Controllers/OrderDetailController.cs:44-50 | a table with unique keys never makes the dictionary throw |
| Join.Ids | REST-API/Controllers/OrderDetailController.cs:41-42 | every link's id is among the ids collected |
| Join.BulkColumn | REST-API/Controllers/OrderDetailController.cs:41-58 | one list column: it fails exactly on a repeated wanted key, it never fails on a unique table, and otherwise each link shows its first-or-default value or `"Unknown"` |
| Join.ResolveEveryLink | REST-API/Controllers/OrderDetailController.cs:52-59 | every link's dictionary lookup agrees with its single-row lookup |
| Enrichment.LoadOrderAndProductDetails | REST-API/Domain/OrderDetail.cs:28-39 | OrderName is the ShipName of the order with an equal OrderID, or null; ProductName is the name of the product with an equal ProductID, or null; the stored line is untouched |
| Enrichment.LoadCustomerAndCustomerTypeDetails | REST-API/Domain/CustomerCustomerDemo.cs:26-37 | CustomerName is the CompanyName of the matching customer, or null; CustomerTypeDescription is the CustomerDesc of the matching demographic, or null; the ids are untouched |
| Enrichment.LoadEmployeeAndTerritoryDetails | REST-API/Domain/EmployeeTerritory.cs:25-36 | Employee is FirstName, a space and LastName of the matching employee, or null; Territory is the untrimmed description of the matching territory, or null; the ids are untouched |
| OrderDetailController.EnrichAll | REST-API/Controllers/OrderDetailController.cs:41-59 | the same lines in the same order; each one shows its single-row names, with `"Unknown"` for null; a store with unique keys never fails |
| OrderDetailController.GetAllOrderDetails | REST-API/Controllers/OrderDetailController.cs:32-62 | an empty list gives NotFound; a non-empty list in a valid store gives Ok with the enriched lines |
| OrderDetailController.GetOrderDetailById | REST-API/Controllers/OrderDetailController.cs:75-102 | a null part gives BadRequest; an absent pair gives NotFound with "Order detail not found!"; otherwise the line with the single-row load |
| OrderDetailController.ListAgreesWithById | REST-API/Controllers/OrderDetailController.cs:88-99 | for every stored line, the list and the by-id endpoint agree: the list shows the by-id names, with `"Unknown"` where those are null |
| OrderDetailController.AddOrderDetail | REST-API/Controllers/OrderDetailController.cs:114-143 | an existing pair gives BadRequest "Order detail already exists!" and no insert; otherwise Created, and the line is appended; no other table changes |
| OrderDetailController.EditOrderDetail | REST-API/Controllers/OrderDetailController.cs:156-196 | invalid model state gives BadRequest; an absent pair gives NotFound before any update; otherwise Ok, and the line takes the request's columns |
| OrderDetailController.DeleteOrderDetail | REST-API/Controllers/OrderDetailController.cs:210-224 | a null part gives BadRequest; an absent pair gives NotFound with no change; otherwise that line is removed |
| CustomerCustomerDemoController.EnrichAll | REST-API/Controllers/CustomerCustomerDemoController.cs:39-56 | each link shows its customer's CompanyName and its demographic's CustomerDesc, or `"Unknown"` |
| CustomerCustomerDemoController.GetAllCustomerCustomerDemos | REST-API/Controllers/CustomerCustomerDemoController.cs:30-59 | an empty list gives NotFound; a non-empty list in a valid store gives Ok, and an Ok body is the enriched links |
| CustomerCustomerDemoController.GetCustomerCustomerDemoById | REST-API/Controllers/CustomerCustomerDemoController.cs:72-96 | either id null gives BadRequest; an absent pair gives NotFound with its message; otherwise the single-row load, so a missing reference shows null, not `"Unknown"` |
| CustomerCustomerDemoController.ListAgreesWithById | REST-API/Controllers/CustomerCustomerDemoController.cs:85-93 | for every stored link, the list shows the by-id fields, with `"Unknown"` for null |
| CustomerCustomerDemoController.AddCustomerCustomerDemo | REST-API/Controllers/CustomerCustomerDemoController.cs:108-135 | a request the annotations refuse gives BadRequest; an existing pair gives BadRequest "Customer customer demo already exists." and no insert; Created exactly when valid and new |
| CustomerCustomerDemoController.DeleteCustomerCustomerDemo | REST-API/Controllers/CustomerCustomerDemoController.cs:148-161 | either id null gives BadRequest; a false result from the repository gives NotFound "Customer customer demo not found!" |
| EmployeeTerritoryController.TrimmedDescriptionOf | REST-API/Controllers/EmployeeTeritoryController.cs:48-50 | the dictionary value is the territory description, trimmed |
| EmployeeTerritoryController.TrimmedLookup | REST-API/Controllers/EmployeeTeritoryController.cs:48-50 | looking up the trimmed description is trimming the looked-up one |
| EmployeeTerritoryController.TrimmedLookupEvery | REST-API/Controllers/EmployeeTeritoryController.cs:48-58 | the same, at every link |
| EmployeeTerritoryController.EnrichAll | REST-API/Controllers/EmployeeTeritoryController.cs:41-59 | each link shows FirstName + " " + LastName and the trimmed description of its single-row load, or `"Unknown"` |
| EmployeeTerritoryController.GetAllEmployeeTerritories | REST-API/Controllers/EmployeeTeritoryController.cs:32-62 | an empty list gives NotFound; a non-empty list in a valid store gives Ok, and an Ok body is the enriched links |
| EmployeeTerritoryController.GetEmployeeTerritoryById | REST-API/Controllers/EmployeeTeritoryController.cs:76-103 | a null employee id or a null or empty territory id gives BadRequest; an absent pair gives NotFound; otherwise the single-row load with its Territory trimmed |
| EmployeeTerritoryController.ListAgreesWithById | REST-API/Controllers/EmployeeTeritoryController.cs:90-100 | for every stored link with a non-empty territory id, the list shows the by-id fields, with `"Unknown"` for null; a link with an empty territory id is refused by the guard |
| EmployeeTerritoryController.AddEmployeeTerritory | REST-API/Controllers/EmployeeTeritoryController.cs:116-143 | invalid requests give BadRequest; an existing pair gives BadRequest "EmployeeTerritory already exists" and no insert; Created exactly when valid and new |
| EmployeeTerritoryController.DeleteEmployeeTerritory | REST-API/Controllers/EmployeeTeritoryController.cs:156-171 | the by-id guard gives BadRequest; an absent pair gives NotFound with no change; otherwise that link is removed |
| EmployeeDates.ValidateDatesForAdd | REST-API/Controllers/EmployeeController.cs:198-207 | the BirthDate entry is recorded exactly when both dates are present and the birth date is strictly later than the hire date |
| EmployeeDates.ValidateDatesForEdit | REST-API/Controllers/EmployeeController.cs:209-218 | the edit action applies the same rule to the edit request's dates: an entry exactly when both are present and the birth date is later |
| EmployeeDates.SameDayAndMissingDatesPass | REST-API/Controllers/EmployeeController.cs:200-202 | equal dates pass, because the comparison is strict, and a missing date always passes |
| EmployeeController.GetAllEmployees | REST-API/Controllers/EmployeeController.cs:28-37 | always Ok with every row; each of them is what get-by-id returns |
| EmployeeController.GetEmployeeById | REST-API/Controllers/EmployeeController.cs:49-63 | a null id gives BadRequest; an absent id gives NotFound; otherwise Ok with the row |
| EmployeeController.AddEmployee | REST-API/Controllers/EmployeeController.cs:75-113 | as written: a null body or invalid model state gives BadRequest; otherwise the employee is stored under the store-assigned key and Created is returned, whatever the dates; a key the store already holds gives InternalServerError |
| EmployeeController.EditEmployee | REST-API/Controllers/EmployeeController.cs:126-170 | as written: an absent id gives NotFound; otherwise Ok, and the row becomes the request, whatever the dates |
| EmployeeController.DateErrorDoesNotStopAdd | REST-API/Controllers/EmployeeController.cs:87-112 | a request whose birth date is after its hire date is still Created, and the store changes |
| EmployeeController.DateErrorDoesNotStopEdit | REST-API/Controllers/EmployeeController.cs:138-169 | the edit stores the offending dates and gives Ok |
| EmployeeController.BornAfterHiredIsCreated | REST-API/Controllers/EmployeeController.cs:87-112 | a concrete request, born on day 20000 and hired on day 10000, is Created |
| EmployeeController.AddEmployeeChecked | REST-API/Controllers/EmployeeController.cs:82-87 | corrected: a date error gives BadRequest and no change; otherwise the add goes ahead as written |
| EmployeeController.EditEmployeeChecked | REST-API/Controllers/EmployeeController.cs:133-138 | corrected: a date error gives BadRequest and no change |
| EmployeeController.CheckedKeepsDatesOrdered | REST-API/Controllers/EmployeeController.cs:198-218 | with the corrected actions, every row an add appends has its birth date no later than its hire date; after an edit that changes the store, get-by-key of the request's id returns the request, and its dates are in order |
| EmployeeController.DeleteEmployee | REST-API/Controllers/EmployeeController.cs:182-196 | a null id gives BadRequest; a missing row gives NotFound; otherwise the row is removed |
| CustomerController.GetAllCustomers | REST-API/Controllers/CustomerController.cs:28-38 | the list is never null, so the result is Ok with every row, even when empty |
| CustomerController.GetCustomerById | REST-API/Controllers/CustomerController.cs:50-60 | no id guard: a null or absent id gives NotFound |
| CustomerController.AddCustomer | REST-API/Controllers/CustomerController.cs:72-108 | an existing CustomerID gives BadRequest "Customer already exists" and no insert; otherwise Created, and the row is appended |
| CustomerController.EditCustomer | REST-API/Controllers/CustomerController.cs:120-162 | a missing customer gives BadRequest "Customer does not exist", not NotFound; otherwise Ok; the NotFound after the edit cannot happen |
| CustomerController.DeleteCustomer | REST-API/Controllers/CustomerController.cs:174-189 | a null or whitespace id gives BadRequest; an absent id gives NotFound; otherwise the row is removed |
| CustomerDemographicController.GetAllCustomerDemographics | REST-API/Controllers/CustomerDemographicController.cs:28-38 | always Ok with every row as read |
| CustomerDemographicController.GetCustomerDemographicById | REST-API/Controllers/CustomerDemographicController.cs:50-65 | a null or whitespace id gives BadRequest; an absent id gives NotFound; otherwise the row with its key trimmed |
| CustomerDemographicController.AddCustomerDemographic | REST-API/Controllers/CustomerDemographicController.cs:77-104 | an existing CustomerTypeID gives BadRequest "Customer demographic already exists." and no insert; otherwise Created |
| CustomerDemographicController.AddThenGet | REST-API/Controllers/CustomerDemographicController.cs:77-104 | what an add stores, a later fetch by the same id returns, with the key trimmed |
| CustomerDemographicController.EditCustomerDemographic | REST-API/Controllers/CustomerDemographicController.cs:116-142 | a request the annotations refuse gives BadRequest; with no pre-check, a null result from the repository gives NotFound; otherwise Ok, and the row takes the new description |
| CustomerDemographicController.DeleteCustomerDemographic | REST-API/Controllers/CustomerDemographicController.cs:154-169 | a null or whitespace id gives BadRequest; a false result gives NotFound |
| TerritoryController.GetAllTerritories | REST-API/Controllers/TerritoryController.cs:28-36 | always Ok with every row as read |
| TerritoryController.GetTerritoryById | REST-API/Controllers/TerritoryController.cs:48-61 | a null or empty id gives BadRequest, while a whitespace id passes the guard; an absent id gives NotFound |
| TerritoryController.AddTerritory | REST-API/Controllers/TerritoryController.cs:73-100 | an existing TerritoryID gives BadRequest "Territory already exists" and no insert; otherwise Created |
| TerritoryController.EditTerritory | REST-API/Controllers/TerritoryController.cs:112-145 | a missing territory gives NotFound before any update; otherwise Ok; the BadRequest after the edit cannot happen |
| TerritoryController.EditThenGet | REST-API/Controllers/TerritoryController.cs:112-145 | after an edit, the next fetch returns the request's columns, with the description trimmed |
| TerritoryController.DeleteTerritory | REST-API/Controllers/TerritoryController.cs:157-171 | a null or empty id gives BadRequest; a false result gives NotFound |
| RegionController.GetAllRegions | REST-API/Controllers/RegionController.cs:28-32 | always Ok with the repository list, including an empty one |
| RegionController.GetRegionById | REST-API/Controllers/RegionController.cs:44-57 | a null id gives BadRequest; an absent id gives NotFound |
| RegionController.AddRegion | REST-API/Controllers/RegionController.cs:69-96 | an existing RegionID gives BadRequest "Region already exists" and no insert; otherwise Created |
| RegionController.EditRegion | REST-API/Controllers/RegionController.cs:108-135 | an absent RegionID gives NotFound; otherwise Ok |
| RegionController.DeleteRegion | REST-API/Controllers/RegionController.cs:147-162 | a null id gives BadRequest; a false result gives NotFound |
| RegionController.RegionLifeCycle | REST-API/Controllers/RegionController.cs:39-162 | for any valid store, any free id and any valid, trimmed description: the add is Created, a fetch gives the row back, a delete is Ok, a fetch is then NotFound, and the store is back as it was |
| DataAnnotations.Check | REST-API/Commands/Territory/EditTerritoryRequest.cs:7-13 | every attribute the value fails has a ModelState entry, and every entry names an attribute the value fails; no errors exactly when every attribute holds |
| DataAnnotations.CheckTwo | REST-API/Commands/Region/AddRegionRequest.cs:8-10 | a property with two attributes is valid exactly when both hold |
| DataAnnotations.CheckThree | REST-API/Commands/CustomerCustomerDemo/AddCustomerCustomerDemoRequest.cs:7-10 | a property with three attributes is valid exactly when all three hold |
| Requests.ValidateAddCategory | REST-API/Commands/Category/AddCategoryRequest.cs:7-11 | valid exactly when CategoryName is non-blank and at most 15 UTF-16 code units; a failing attribute is reported on CategoryName; Description and Picture are unconstrained |
| Requests.ValidateCustomerIdOfLink | REST-API/Commands/CustomerCustomerDemo/AddCustomerCustomerDemoRequest.cs:7-10 | CustomerID is required, at most 5 code units, and only the capital letters A-Z |
| Requests.ValidateCustomerTypeIdOfLink | REST-API/Commands/CustomerCustomerDemo/AddCustomerCustomerDemoRequest.cs:11-14 | CustomerTypeID is required, at most 10 code units, and only digits |
| Requests.ValidateAddCustomerCustomerDemo | REST-API/Commands/CustomerCustomerDemo/AddCustomerCustomerDemoRequest.cs:7-14 | valid exactly when both ids satisfy all of their rules |
| Requests.ValidateEditCustomerDemographic | REST-API/Commands/CustomerDemographic/EditCustomerDemographicRequest.cs:6-10 | CustomerTypeID is required and digits only; more than 10 UTF-16 code units fails with "CustomerTypeID can't be longer than 10 characters.", whatever the characters; CustomerDesc is free |
| Requests.ValidateAddEmployeeTerritory | REST-API/Commands/EmployeeTerritory/AddEmployeeTerritoryRequest.cs:6-10 | TerritoryID is required and at most 20 UTF-16 code units, with no pattern; EmployeeID always passes |
| Requests.ValidateAddOrder | REST-API/Commands/Order/AddOrderRequest.cs:7-25 | nothing is required; each string field is within its maximum length in UTF-16 code units (5, 40, 60, 15, 15, 10, 15), and an overlong postal code is reported |
| Requests.AllNullTextOrderIsValid | REST-API/Commands/Order/AddOrderRequest.cs:7-25 | no property is required: a request whose text fields are all null is valid, whatever its ids, dates and freight |
| Requests.ValidateAddRegion | REST-API/Commands/Region/AddRegionRequest.cs:6-10 | RegionDescription is required and at most 50 UTF-16 code units; RegionID has no limit |
| Requests.ValidateEditRegion | REST-API/Commands/Region/EditRegionRequest.cs:6-10 | the edit request carries the add request's attributes: valid exactly when the description is non-blank and at most 50 UTF-16 code units |
| Requests.ValidateAddShipper | REST-API/Commands/Shipper/AddShipperRequest.cs:7-11 | CompanyName is required and at most 40 UTF-16 code units; Phone is null or at most 24 code units |
| Requests.ValidateEditShipper | REST-API/Commands/Shipper/EditShipperRequest.cs:6-11 | the add request's rules on the same two properties, in UTF-16 code units; ShipperID has no attribute |
| Requests.ValidateEditTerritory | REST-API/Commands/Territory/EditTerritoryRequest.cs:7-15 | TerritoryID is required, at most 20 code units and digits only; TerritoryDescription is required and at most 50 UTF-16 code units; RegionID always passes |
| CategoryValidators.CategoryNameMessages | REST-API/Validators/Category/AddCategoryValidator.cs:10-12 | every rule of the chain runs: a null name gives the required message twice, a blank name of at most 15 code units gives it once, a non-blank name longer than 15 UTF-16 code units gives only "Category Name must not exceed 15 characters" |
| CategoryValidators.ValidateAdd | REST-API/Validators/Category/AddCategoryValidator.cs:8-13 | valid exactly when the name is non-blank and at most 15 UTF-16 code units |
| CategoryValidators.ValidateEdit | REST-API/Validators/Category/EditCategoryValidator.cs:8-15 | valid exactly when CategoryID is not 0 and the name is non-blank and at most 15 UTF-16 code units; a CategoryID of 0 gives "Category ID is required" first |
| CategoryValidators.ValidatorAgreesWithAnnotations | REST-API/Validators/Category/AddCategoryValidator.cs:10-12 | message by message, the validator agrees with `[Required] [MaxLength(15)]`: "Category Name is required" exactly when `[Required]` fails, "must not exceed 15 characters" exactly when `[MaxLength(15)]` fails, so both accept the same requests |
| CategoryValidators.NameLengthBoundary | REST-API/Validators/Category/AddCategoryValidator.cs:10-12 | for every non-blank name: at most 15 code units passes, and anything longer gets exactly the length message |
| CategoryValidators.FifteenBmpCharactersPass | REST-API/Validators/Category/AddCategoryValidator.cs:10-12 | every non-blank name of 15 characters from the Basic Multilingual Plane passes |
| CategoryValidators.EightAstralCharactersTooLong | REST-API/Validators/Category/AddCategoryValidator.cs:11 | every name of eight or more characters outside the Basic Multilingual Plane, eight emoji say, is too long, because that is 16 code units |

## Left out

- **Entity Framework Core and SQL Server.** Change tracking, `SaveChangesAsync`, transactions and the database's padded, case-insensitive string comparison are left out. The model compares keys with exact equality.
- **Trimming on read.** The trimming repositories trim a tracked entity. The model returns a trimmed copy and never writes it back.
- **Store-assigned keys.** The key the store assigns to an identity table is the `newId` input. If that key is already taken, the insert fails: the repository gives KeyConflict and `EmployeeController.AddEmployee` gives InternalServerError.
- **async/Task and concurrency.** Every call is one synchronous step, so the race between a duplicate check and the add that follows it is not modelled.
- **REST-API/Program.cs.** It is not part of this model: dependency injection, Swagger, HTTPS and the health checks are configuration and I/O.
- **Unregistered repositories.** Program.cs:73-79 registers seven repositories. `IEmployeeRepository`, `IOrderDetailRepository`, `ICustomerCustomerDemoRepository` and `IEmployeeTerritoryRepository` are not among them. As configured, the Employee, OrderDetail, CustomerCustomerDemo and EmployeeTeritory controllers cannot be constructed, and a request to them ends in 500. The model describes these four controllers' actions as they behave once their repositories are registered.
- **REST-API/Memory/NorthwindMemoryCache.cs.** It is not part of this model: it is an unused timed cache.
- **The Category, Supplier, Order, Product and Shipper controllers.** They are left out because their actions only pass calls through. A null id, a null body or invalid model state gives 400; a null repository result gives 404; otherwise the repository's answer is returned.
- **Request classes not modelled.** AddEmployeeRequest, EditEmployeeRequest, AddCustomerRequest, EditCustomerRequest, AddTerritoryRequest, AddCustomerDemographicRequest and EditOrderDetailRequest are not part of this model. For them:
  - the body is the entity record;
  - whether the annotations hold is the `modelValid` input.
- **REST-API/Commands/OrderDetail/AddOrderDetailRequest.cs.** It states nothing: it only marks value types `[Required]`.
- **Framework null bodies.** With `[ApiController]`, ASP.NET answers a null body itself. The model folds that into the action's own BadRequest for a null request. CustomerCustomerDemoController has no `[ApiController]`, so there its own null check answers.
- **Order columns.** The Order entity class is not part of this model. The `Order` record keeps OrderID and the twelve columns OrderRepository.cs:48-61 assigns, CustomerID through ShipCountry. Any other column of the entity, such as the Northwind ShippedDate, is left out, because no modelled operation reads or writes it.
- **Money, discount and date values.** These are opaque copied values, and dates are integers, which have the total order the rule needs.
- **Response text.** Location headers and the text of Ok messages are left out. Only the BadRequest and NotFound messages named above are modelled.
- CustomerCustomerDemoController.DeleteCustomerCustomerDemo: the repository's delete is declared but has no body, so the action takes the repository's answer as the `deleted` input and its effect on the table is not modelled.
- EmployeeRepository.Edit and the other repository edits: the source dereferences its argument, so an edit is given a non-null row. A null argument would throw.
- CategoryValidators.ValidateAdd: FluentValidation is not wired into the pipeline in Program.cs. The validators are modelled as predicates on their own.

## Findings

| source | as written | input that shows it | evidently intended | confidence | as-written member | corrected member |
|---|---|---|---|---|---|---|
| REST-API/Controllers/EmployeeController.cs:87 | `ValidateDatesForAdd` records a ModelState error after `ModelState.IsValid` has already been read, and nothing reads ModelState again, so the employee is stored anyway | once an IEmployeeRepository is registered, an add request with BirthDate day 20000 and HireDate day 10000, with valid annotations: 201 Created, and the row is stored | a birth date later than the hire date is refused with 400 and the store is left unchanged | not executed | EmployeeController.AddEmployee, EmployeeController.BornAfterHiredIsCreated, EmployeeController.DateErrorDoesNotStopAdd | EmployeeController.AddEmployeeChecked |
| REST-API/Controllers/EmployeeController.cs:138 | `ValidateDatesForEdit` has the same flaw: the edit goes ahead after the error is recorded | once an IEmployeeRepository is registered, an edit of a stored employee giving it a birth date after its hire date: 200 Ok, and the row takes the dates | the edit is refused with 400 and the row is unchanged | not executed | EmployeeController.EditEmployee, EmployeeController.DateErrorDoesNotStopEdit | EmployeeController.EditEmployeeChecked |
