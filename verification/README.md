# Repair manager: a Dafny model of its rules

This project models the rule-bearing parts of the repair-shop manager. The
backend is an ASP.NET API over a relational store. The frontend is a Vue
application whose state lives in a Vuex store and whose session comes from a
JSON Web Token kept in local storage. The model covers five areas:

- **Pricing.** The effective price of a catalog pricing row, the lookup of the
  row in effect for an item, and the validation of creates and updates
  (`PricingModel`, `PricingController`).
- **Backend endpoints.** Each endpoint is a pure function from the tables and
  the request to the new tables and the reply. It checks id mismatches,
  absent rows and references to other rows. It guards deletes of in-use
  workflows and programs. It stamps times, patches work-order status,
  validates inventory in a fixed order, and sorts and filters status codes.
  The modules are `Database`, `WorkOrderModel`, `WorkOrdersController`,
  `ProgramsController`, `WorkflowsController`, `InventoryController` and
  `StatusCodesController`.
- **Frontend store.** Mutations and getters are sequence operations
  (`Store`). They cover:
  - replace-by-id and delete-by-id;
  - service–part de-duplication with quantity accumulation;
  - the cascade when a part is deleted;
  - inventory entries keyed by (group, item, type);
  - the `WO` + zero-padded counter numbering of `addWorkOrder`.
- **Token time.** The token shape check, expiry, remaining lifetime and the
  user built from the claims (`JwtService`).
- **Access decisions.** The session helper and the component mixin
  (`Auth`, `SessionMixin`).

Modelling conventions:

- Tables are maps from primary key to row. Listings without an ordering
  clause return rows in key order (`Tables.Rows`).
- An insert with id 0 receives a fresh key. An insert whose explicit id is
  already taken fails in the store, and the model answers `ServerError`.
- An update of a row that vanished is answered `NotFound`.
- Money is `real`, and dates are integer ticks.
- JavaScript values are `Js.Value`, with JavaScript truthiness. Numbers are
  integers, plus `NaN`.
- The clock (`DateTime.UtcNow`, `Date.now()`, `toISOString()`) is a
  parameter.
- The stored token is a parameter.
- The base64url and `JSON.parse` decoding of a token's payload is the
  parameter `decode`.

Shared helpers: `Wrappers`, `Text` (split, join, padStart), `Decimal`
(decimal text of integers, with its parse) and `Tables` (key order, filters,
subsequences).

Facts about the code that the model keeps:

- **Codes come from the frontend.** The backend create stores a work order
  as sent and stamps only `CreatedAt`; it neither generates nor checks work
  order codes. The only code generator is the frontend store's
  `addWorkOrder`.
- **Tie order is the model's choice.** `OrderBy(SortOrder)` and
  `OrderByDescending(EffectiveDate).FirstOrDefaultAsync()` run as SQL, and
  SQL leaves the order of rows with equal keys unspecified. The model breaks
  such ties by primary key: the status code sort is stable over rows in key
  order, and the price lookup takes the first row in key order among those
  with the latest effective date. No contract in the model states a tie
  order as a promise of the store.
- **Non-numeric `exp`.** A token whose `exp` claim is truthy but not a
  number never counts as expired. Its remaining time is reported as 0.
- **Unchecked status.** The work-order status patch stores any status text;
  nothing ties it to the program's workflow.

## Model

| member | source | states |
|---|---|---|
| PricingModel.EffectivePrice | Backend/RepairManagerApi/Models/CatalogPricing.cs:46-63 | never negative; with a fixed discount it is max(0, base − amount); otherwise with a percentage it is max(0, base − base·pct/100); otherwise max(0, base) |
| PricingModel.AmountTakesPrecedence | Backend/RepairManagerApi/Models/CatalogPricing.cs:52-58 | when a fixed discount is set, changing the percentage does not change the price |
| PricingModel.PriceDependsOnlyOnPriceFields | Backend/RepairManagerApi/Models/CatalogPricing.cs:46-63 | two rows with equal base price and discounts have equal effective prices |
| PricingModel.PriceAtMostBase | Backend/RepairManagerApi/Models/CatalogPricing.cs:50-61 | with a non-negative base and non-negative discounts, the effective price is at most the base price |
| PricingModel.QuarterOffHundred | Backend/RepairManagerApi/Models/CatalogPricing.cs:56-61 | 100 at 25% off costs 75 |
| PricingModel.DiscountBeyondPrice | Backend/RepairManagerApi/Models/CatalogPricing.cs:52-61 | 10 less a fixed 50 costs 0 |
| PricingController.ParseItemType | Backend/RepairManagerApi/Controllers/CatalogPricingController.cs:51-54 | a name parses to Part, Device or Service when it equals that member name ignoring ASCII case, and every other text is refused; the trimmed and numeric texts the code also accepts are listed under Left out |
| PricingController.ItemTypeIgnoresCase | Backend/RepairManagerApi/Controllers/CatalogPricingController.cs:51-54 | "pArT" and "SERVICE" are accepted; "Gadget" is refused |
| PricingController.GetPricingForItem | Backend/RepairManagerApi/Controllers/CatalogPricingController.cs:47-85 | BadRequest exactly when the type does not parse; a returned row is stored, of the requested type and item id, in effect at now, and has the latest effective date of all such rows; NotFound exactly when no stored row applies |
| PricingController.Latest | Backend/RepairManagerApi/Controllers/CatalogPricingController.cs:75-77 | the row picked is one of the candidates, and no candidate has a later effective date |
| PricingController.ItemReferenceError | Backend/RepairManagerApi/Controllers/CatalogPricingController.cs:92-134 | no error exactly when the row's type-specific id is set and names an existing row of that type |
| PricingController.PostCatalogPricing | Backend/RepairManagerApi/Controllers/CatalogPricingController.cs:89-140 | BadRequest exactly when the reference check fails; any rejection leaves the tables as they were; a created row gets a fresh key and is stored under it |
| PricingController.PutCatalogPricing | Backend/RepairManagerApi/Controllers/CatalogPricingController.cs:144-215 | id mismatch gives BadRequest; failed reference check gives BadRequest with its message; an absent row gives NotFound; success exactly when all pass, and it replaces that row |
| PricingController.DeleteCatalogPricing | Backend/RepairManagerApi/Controllers/CatalogPricingController.cs:219-231 | an absent id gives NotFound; otherwise exactly that key is removed and every other row is kept |
| PricingController.RejectedWritesChangeNothing | Backend/RepairManagerApi/Controllers/CatalogPricingController.cs:92-134 | a row that fails the reference check leaves the tables unchanged on both create and update |
| WorkOrderModel.NewWorkOrder | Backend/RepairManagerApi/Models/WorkOrder.cs:34-51 | a new order is "Pending", has part list text "[]", is created at now and has no update time |
| WorkOrderModel.PartIds | Backend/RepairManagerApi/Models/WorkOrder.cs:43-45 | a null or empty part list text reads as the empty list |
| WorkOrderModel.SetPartIds | Backend/RepairManagerApi/Models/WorkOrder.cs:46 | only the part list text changes, and it becomes non-empty |
| WorkOrderModel.Serialize | Backend/RepairManagerApi/Models/WorkOrder.cs:46 | the text is a JSON array: it starts with '[' and ends with ']'; `DeserializeSerialize` reads it back |
| WorkOrderModel.Deserialize | Backend/RepairManagerApi/Models/WorkOrder.cs:45 | the JSON null literal, and only it, reads as null |
| WorkOrderModel.ParseShowAll | Backend/RepairManagerApi/Models/WorkOrder.cs:45-46 | reading back the decimal texts of a list of 32-bit integers gives the list |
| WorkOrderModel.DeserializeSerialize | Backend/RepairManagerApi/Models/WorkOrder.cs:45-46 | deserializing the serialized list gives it back |
| WorkOrderModel.PartIdsRoundTrip | Backend/RepairManagerApi/Models/WorkOrder.cs:41-47 | setting the part ids and reading them returns the same list |
| WorkOrderModel.NewWorkOrderHasNoParts | Backend/RepairManagerApi/Models/WorkOrder.cs:37 | a new order has no parts |
| WorkOrdersController.PostWorkOrder | Backend/RepairManagerApi/Controllers/WorkOrdersController.cs:54-63 | stores the order as sent with CreatedAt set to now under a fresh key; fails only on a taken explicit id, and then changes nothing |
| WorkOrdersController.PutWorkOrder | Backend/RepairManagerApi/Controllers/WorkOrdersController.cs:67-96 | id mismatch gives BadRequest and no change; an absent order gives NotFound; otherwise the row becomes the body with UpdatedAt set to now |
| WorkOrdersController.UpdateWorkOrderStatus | Backend/RepairManagerApi/Controllers/WorkOrdersController.cs:100-129 | an absent id gives NotFound and no change; otherwise only that order's status and update time change, to the requested text and now |
| WorkOrdersController.DeleteWorkOrder | Backend/RepairManagerApi/Controllers/WorkOrdersController.cs:133-145 | an absent id gives NotFound; otherwise exactly that order is removed |
| WorkOrdersController.NotesAreNeverStored | Backend/RepairManagerApi/Controllers/WorkOrdersController.cs:109-110 | two status patches that differ only in their notes have the same outcome |
| WorkOrdersController.StatusPatchIdempotent | Backend/RepairManagerApi/Controllers/WorkOrdersController.cs:100-129 | repeating a status patch at the same time changes nothing further |
| WorkOrdersController.PutReplacesWholesale | Backend/RepairManagerApi/Controllers/WorkOrdersController.cs:75-93 | the row after an update does not depend on the row before it; even the creation time comes from the body |
| WorkOrdersController.PostThenDeleteRestores | Backend/RepairManagerApi/Controllers/WorkOrdersController.cs:54-145 | deleting an order just created restores the tables |
| WorkOrdersController.StatusOfNewOrder | Backend/RepairManagerApi/Controllers/WorkOrdersController.cs:100-129 | a default order starts "Pending"; a later patch sets status and update time and keeps the creation time |
| WorkOrdersController.PatchAndDeleteKeepLinks | Backend/RepairManagerApi/Controllers/WorkOrdersController.cs:100-145 | status patches and deletes keep every order's program stored |
| ProgramsController.PostProgram | Backend/RepairManagerApi/Controllers/ProgramsController.cs:50-63 | a missing workflow gives BadRequest and no change; creation happens exactly when the workflow exists and the id is free |
| ProgramsController.PutProgram | Backend/RepairManagerApi/Controllers/ProgramsController.cs:67-100 | id mismatch gives BadRequest; a missing workflow gives BadRequest; an absent program gives NotFound; otherwise that row is replaced |
| ProgramsController.DeleteProgram | Backend/RepairManagerApi/Controllers/ProgramsController.cs:104-123 | an absent id gives NotFound; a program used by a work order gives BadRequest and stays; otherwise exactly it is removed |
| ProgramsController.ProgramWritesKeepLinks | Backend/RepairManagerApi/Controllers/ProgramsController.cs:50-123 | create, update and delete of programs keep every work order's program and every program's workflow stored |
| ProgramsController.UsedProgramSurvives | Backend/RepairManagerApi/Controllers/ProgramsController.cs:113-117 | a program some work order names cannot be deleted |
| WorkflowsController.PostWorkflow | Backend/RepairManagerApi/Controllers/WorkflowsController.cs:46-52 | stores the workflow without validation; fails only on a taken explicit id |
| WorkflowsController.PutWorkflow | Backend/RepairManagerApi/Controllers/WorkflowsController.cs:56-82 | id mismatch gives BadRequest; an absent workflow gives NotFound; otherwise that row is replaced |
| WorkflowsController.DeleteWorkflow | Backend/RepairManagerApi/Controllers/WorkflowsController.cs:86-105 | an absent id gives NotFound; a workflow used by a program gives BadRequest and stays; otherwise exactly it is removed |
| WorkflowsController.WorkflowWritesKeepLinks | Backend/RepairManagerApi/Controllers/WorkflowsController.cs:46-105 | workflow writes keep every program's workflow stored |
| WorkflowsController.UsedWorkflowSurvives | Backend/RepairManagerApi/Controllers/WorkflowsController.cs:95-99 | a workflow some program names cannot be deleted |
| InventoryController.CatalogItemError | Backend/RepairManagerApi/Controllers/InventoryController.cs:127-146 | no error exactly when the type is "Part" or "Device" and names a stored row; the type error exactly when the type is neither |
| InventoryController.ValidationError | Backend/RepairManagerApi/Controllers/InventoryController.cs:127-153 | valid exactly when the item is stored and the group exists; a failed item check gives its error; only then is a missing group reported |
| InventoryController.PostInventoryItem | Backend/RepairManagerApi/Controllers/InventoryController.cs:124-160 | BadRequest exactly on a validation error, with its message, and no change; a created row is stored under a fresh key with LastUpdated set to now |
| InventoryController.PutInventoryItem | Backend/RepairManagerApi/Controllers/InventoryController.cs:164-220 | id mismatch, then validation, then absence decide the reply; a success stores the body with LastUpdated set to now under that id, and every other row and table is unchanged |
| InventoryController.DeleteInventoryItem | Backend/RepairManagerApi/Controllers/InventoryController.cs:224-236 | an absent id gives NotFound; otherwise exactly that row is removed |
| InventoryController.GetInventoryItemsByGroup | Backend/RepairManagerApi/Controllers/InventoryController.cs:91-120 | lists the stored rows of the requested group, each once and in key order, and no others |
| InventoryController.GroupCheckedAfterItem | Backend/RepairManagerApi/Controllers/InventoryController.cs:149-153 | an item that fails its catalog check is never reported as having a missing group |
| InventoryController.OnlyPartOrDevice | Backend/RepairManagerApi/Controllers/InventoryController.cs:142-146 | any type other than exactly "Part" or "Device" is refused by create and update, with no change |
| InventoryController.CreatedRowJoinsItsGroup | Backend/RepairManagerApi/Controllers/InventoryController.cs:91-160 | after a create, the new row is listed in its own group, and every other group's listing is unchanged |
| StatusCodesController.Sort | Backend/RepairManagerApi/Controllers/StatusCodesController.cs:27-29 | the result is sorted by sort order and has as many codes as the input |
| StatusCodesController.SortPermutes | Backend/RepairManagerApi/Controllers/StatusCodesController.cs:27-29 | the sort is a permutation of its input: every code kept, none added, multiplicities unchanged |
| StatusCodesController.SortedMeansOrdered | Backend/RepairManagerApi/Controllers/StatusCodesController.cs:27-29 | in a sorted listing every earlier code has a sort order no greater than every later one |
| StatusCodesController.GetStatusCodes | Backend/RepairManagerApi/Controllers/StatusCodesController.cs:25-30 | every stored code, sorted ascending by sort order |
| StatusCodesController.GetActiveStatusCodes | Backend/RepairManagerApi/Controllers/StatusCodesController.cs:34-40 | exactly the active stored codes, sorted ascending by sort order |
| StatusCodesController.FilterSort | Backend/RepairManagerApi/Controllers/StatusCodesController.cs:27-39 | filtering a sorted sequence equals sorting the filtered sequence |
| StatusCodesController.ActiveIsSubsequenceOfAll | Backend/RepairManagerApi/Controllers/StatusCodesController.cs:27-39 | the active listing is the full listing with inactive codes removed, in the same order |
| StatusCodesController.PostStatusCode | Backend/RepairManagerApi/Controllers/StatusCodesController.cs:58-64 | stores the code as sent under a fresh key; fails only on a taken explicit id |
| StatusCodesController.PutStatusCode | Backend/RepairManagerApi/Controllers/StatusCodesController.cs:68-94 | id mismatch gives BadRequest; an absent code gives NotFound; otherwise that row is replaced |
| StatusCodesController.DeleteStatusCode | Backend/RepairManagerApi/Controllers/StatusCodesController.cs:98-110 | an absent id gives NotFound; otherwise exactly that code is removed |
| StatusCodesController.DeactivatedCodeLeavesActiveListing | Backend/RepairManagerApi/Controllers/StatusCodesController.cs:34-94 | after a stored code is updated to inactive, it leaves the active listing and stays in the full one |
| Store.Initial | Frontend/repair-manager-frontend/src/store/index.js:8-34 | the store starts with no work orders, service parts or inventory, counter 0, no current group, and signed out |
| Store.UpdateById | Frontend/repair-manager-frontend/src/store/index.js:101-106 | same length; with no matching id the list is unchanged; with one, the new element is in the list and every element of another id stays in place |
| Store.DeleteById | Frontend/repair-manager-frontend/src/store/index.js:107-109 | keeps exactly the elements of other ids, in their order and each as often as before |
| Store.DeleteAfterUpdate | Frontend/repair-manager-frontend/src/store/index.js:101-109 | deleting an id after replacing its element is the same as deleting it directly |
| Store.UpdateKeepsIds | Frontend/repair-manager-frontend/src/store/index.js:101-106 | replacing by id never changes the id at any position |
| Store.UpdateDevice | Frontend/repair-manager-frontend/src/store/index.js:101-106 | replaces the first device with the same id in place; later devices with that id, other devices and the length are unchanged; only the device list changes |
| Store.DeleteDevice | Frontend/repair-manager-frontend/src/store/index.js:107-109 | removes exactly the devices with that id; the others stay in order, each as often as before; only the device list changes |
| Store.UpdateWorkOrder | Frontend/repair-manager-frontend/src/store/index.js:225-230 | replaces the first order with the same id in place; later orders with that id, other orders and the length are unchanged |
| Store.DeleteWorkOrder | Frontend/repair-manager-frontend/src/store/index.js:231-233 | removes exactly the orders with that id; the others stay in order, each as often as before |
| Store.AddWorkOrderEntry | Frontend/repair-manager-frontend/src/store/index.js:222-224 | appends the order after the existing ones |
| Store.SetWorkOrderCounter | Frontend/repair-manager-frontend/src/store/index.js:234-236 | sets the counter and nothing else |
| Store.UpdateCatalogPrice | Frontend/repair-manager-frontend/src/store/index.js:320-325 | replaces the first price with the same id in place; later prices with that id, other prices and the length are unchanged |
| Store.DeleteCatalogPrice | Frontend/repair-manager-frontend/src/store/index.js:326-328 | removes exactly the prices with that id; the others stay in order, each as often as before |
| Store.AddServicePart | Frontend/repair-manager-frontend/src/store/index.js:190-208 | a new pair is appended with the quantity, defaulting to 1, and the clock as id; for an existing pair the first entry of that pair gains the quantity, and all other entries and the length are unchanged |
| Store.AddServicePartAccumulates | Frontend/repair-manager-frontend/src/store/index.js:190-208 | the total quantity of the pair grows by the added quantity, and every other pair's total is unchanged |
| Store.AddServicePartKeepsPairsUnique | Frontend/repair-manager-frontend/src/store/index.js:192-207 | no two entries share a (service, part) pair before means none do after |
| Store.AddToExistingPairKeepsLength | Frontend/repair-manager-frontend/src/store/index.js:196-198 | adding to an existing pair keeps the list length |
| Store.UpdateServicePart | Frontend/repair-manager-frontend/src/store/index.js:209-214 | same length; the first entry with that id gets the new quantity; every other entry, including later ones with the same id, is unchanged; nothing else changes |
| Store.UpdateServicePartKeepsPairsUnique | Frontend/repair-manager-frontend/src/store/index.js:209-214 | a quantity update keeps the pairs unique |
| Store.RemoveServicePart | Frontend/repair-manager-frontend/src/store/index.js:215-217 | removes exactly the entries with that id; the others stay in order, each as often as before |
| Store.DeletePart | Frontend/repair-manager-frontend/src/store/index.js:182-186 | removes exactly the parts with that id and exactly the service-part entries naming it; both lists keep the rest in order, each as often as before |
| Store.DeletionsKeepPairsUnique | Frontend/repair-manager-frontend/src/store/index.js:182-217 | part deletion and entry removal keep the pairs unique |
| Store.DeletedPartHasNoQuantity | Frontend/repair-manager-frontend/src/store/index.js:182-186 | after deleting a part, no service lists any quantity of it |
| Store.UpdateInventoryItem | Frontend/repair-manager-frontend/src/store/index.js:336-343 | replaces the first entry with the same (group, item, type) in place; later entries for that slot, entries for other slots and the length are unchanged; with none the list is unchanged |
| Store.DeleteInventoryItem | Frontend/repair-manager-frontend/src/store/index.js:344-348 | removes exactly the entries with that (group, item, type); the others stay in order, each as often as before |
| Store.InventoryKeyedBySlotOnly | Frontend/repair-manager-frontend/src/store/index.js:336-348 | updating a slot and then deleting it gives the same list whatever stock figures the update carried, the same as deleting it directly |
| Store.UpdateGroup | Frontend/repair-manager-frontend/src/store/index.js:270-280 | replaces the first group with the same id in place, leaving the other entries and the length unchanged, and replaces the current group too when it has that id |
| Store.DeleteGroup | Frontend/repair-manager-frontend/src/store/index.js:281-288 | removes exactly the groups with that id, keeping the others in order and each as often as before, and clears the current group when it is the one deleted |
| Store.GroupMutationsKeepCurrentListed | Frontend/repair-manager-frontend/src/store/index.js:270-288 | when the current group is listed, it stays listed (or is cleared) after an update or delete |
| Store.CompatibleParts | Frontend/repair-manager-frontend/src/store/index.js:54-59 | exactly the parts with a null device or the service's device, in list order, each as often as listed |
| Store.WorkOrdersByGroup | Frontend/repair-manager-frontend/src/store/index.js:63-66 | "all" gives every order; any other id gives exactly that group's orders, in order, each as often as listed |
| Store.InventoryByGroup | Frontend/repair-manager-frontend/src/store/index.js:85-87 | exactly the entries of the group, in list order, each as often as listed |
| Store.IsAdmin | Frontend/repair-manager-frontend/src/store/index.js:80 | an admin needs a stored user; with one, admin exactly when the user's flag is truthy |
| Store.CurrentGroupInventory | Frontend/repair-manager-frontend/src/store/index.js:88-91 | nothing without a current group, otherwise that group's entries |
| Store.SetAuth | Frontend/repair-manager-frontend/src/store/index.js:353-356 | sets the user and the flag and nothing else |
| Store.Logout | Frontend/repair-manager-frontend/src/store/index.js:357-360 | the user is cleared to null and the store is left signed out and not admin; nothing else changes |
| Store.Login | Frontend/repair-manager-frontend/src/store/index.js:1040-1056 | the signed-in user is always made admin and the store is marked signed in |
| Store.WorkOrderCode | Frontend/repair-manager-frontend/src/store/index.js:892-893 | codes start with "WO" and are at least 7 characters, exactly 7 below 100000 |
| Store.CounterOfCode | Frontend/repair-manager-frontend/src/store/index.js:892-893 | stripping "WO" and the padding zeros from a code gives back its counter |
| Store.CodeInjective | Frontend/repair-manager-frontend/src/store/index.js:892-893 | equal codes come from equal counters |
| Store.CodesDiffer | Frontend/repair-manager-frontend/src/store/index.js:892-893 | different counters give different codes |
| Store.FirstCode | Frontend/repair-manager-frontend/src/store/index.js:892-893 | counter 1 gives "WO00001" |
| Store.DeviceName | Frontend/repair-manager-frontend/src/store/index.js:899-908 | the name of the first device with that id; "Unknown Device" when there is none |
| Store.ServiceName | Frontend/repair-manager-frontend/src/store/index.js:900-909 | the name of the first service with that id; "Unknown Service" when there is none |
| Store.NewOrder | Frontend/repair-manager-frontend/src/store/index.js:892-912 | the order is coded from counter + 1 and carries the clock's id and time, no update time, the draft's device, service and details, and the display names of that device and service; its group is the draft's when truthy, else the current group's, else 1 |
| Store.AddWorkOrder | Frontend/repair-manager-frontend/src/store/index.js:889-924 | appends exactly the order `NewOrder` builds after the existing ones; the counter advances by exactly one; nothing else changes |
| Store.AddWorkOrders | Frontend/repair-manager-frontend/src/store/index.js:889-924 | successive calls advance the counter by the number of drafts and append one order per draft |
| Store.AppendedNumbered | Frontend/repair-manager-frontend/src/store/index.js:892-893 | an appended order carrying the code of the advanced counter reads back as that counter |
| Store.AddWorkOrdersNumbering | Frontend/repair-manager-frontend/src/store/index.js:889-924 | successive calls keep the earlier orders and number the new ones counter + 1, counter + 2, … |
| Store.NumberedDistinct | Frontend/repair-manager-frontend/src/store/index.js:892-893 | orders numbered one apart have pairwise distinct codes |
| Store.CodesAreDistinct | Frontend/repair-manager-frontend/src/store/index.js:889-924 | the orders successive addWorkOrder calls create carry pairwise distinct codes |
| JwtService.ParseToken | Frontend/repair-manager-frontend/src/services/jwtService.js:71-86 | no claims without a token, or for a token without exactly two dots |
| JwtService.ParseThreeParts | Frontend/repair-manager-frontend/src/services/jwtService.js:76-82 | a token of three dot-free parts is decoded from its middle part |
| JwtService.IsTokenExpired | Frontend/repair-manager-frontend/src/services/jwtService.js:93-100 | expired without claims or without a truthy exp; with a truthy exp, expired exactly when it is a number and now ≥ exp·1000; unexpired only for a present token |
| JwtService.GetTokenRemainingTime | Frontend/repair-manager-frontend/src/services/jwtService.js:107-114 | 0 without claims or without a truthy numeric exp; with one, r·1000 ≤ max(exp·1000 − now, 0) < r·1000 + 1000, so it is the whole seconds left and 0 once expired |
| JwtService.RemainingMeansUnexpired | Frontend/repair-manager-frontend/src/services/jwtService.js:93-114 | time left implies not expired |
| JwtService.ExpiredMeansNoTimeLeft | Frontend/repair-manager-frontend/src/services/jwtService.js:93-114 | an expired token has no time left |
| JwtService.ExpiryIsAtExpSeconds | Frontend/repair-manager-frontend/src/services/jwtService.js:98-99 | with a non-zero numeric exp, expired exactly when now ≥ exp·1000 |
| JwtService.GetUserFromToken | Frontend/repair-manager-frontend/src/services/jwtService.js:32-48 | a user exactly when claims decode; admin exactly for "True" or true; groupId null exactly for a falsy claim, the parseInt value for a parsable one and NaN otherwise; id is userId when truthy and sub otherwise; username is username when truthy and sub otherwise; email and role as claimed |
| JwtService.GroupClaimReadBack | Frontend/repair-manager-frontend/src/services/jwtService.js:46 | a non-zero groupId claim, given as a number or as its decimal text, comes through as that number |
| JwtService.LowerCaseTrueIsNotAdmin | Frontend/repair-manager-frontend/src/services/jwtService.js:44 | the text "true" does not make an admin |
| Js.ParseInt | Frontend/repair-manager-frontend/src/services/jwtService.js:46 | parseInt gives back a number it is handed, and reads JSON integer text as the integer it denotes |
| Js.ParseIntOfShow | Frontend/repair-manager-frontend/src/services/jwtService.js:46 | parseInt reads the decimal text of any integer back as that integer |
| Js.ParseIntOfJsonText | Frontend/repair-manager-frontend/src/services/jwtService.js:46 | parseInt agrees with the JSON integer grammar on every text that grammar accepts |
| Js.ToNumber | Frontend/repair-manager-frontend/src/services/jwtService.js:98-99 | the coercion of `exp * 1000` leaves a number as it is and reads JSON integer text as the integer it denotes |
| Js.TextToNumberOfJsonText | Frontend/repair-manager-frontend/src/services/jwtService.js:98-99 | Number() agrees with the JSON integer grammar on every text that grammar accepts |
| Auth.IsAuthenticated | Frontend/repair-manager-frontend/src/auth.js:99-102 | signed in exactly when the store's flag is set and the stored token's claims decode with a truthy exp that is either not a number or lies after now |
| Auth.IsAdmin | Frontend/repair-manager-frontend/src/auth.js:108-110 | admin implies authenticated and a stored user with a truthy admin flag, and conversely |
| Auth.GetUser | Frontend/repair-manager-frontend/src/auth.js:76-81 | no user unless authenticated; otherwise the stored user |
| Auth.GetUserRoles | Frontend/repair-manager-frontend/src/auth.js:87-93 | no roles without a user or with a falsy role; the items of an array role; otherwise the role alone |
| Auth.RefreshAuth | Frontend/repair-manager-frontend/src/auth.js:51-61 | answers true exactly when the token is present and unexpired, and then stores the token's user as authenticated; otherwise nothing changes |
| Auth.CanAccess | Frontend/repair-manager-frontend/src/auth.js:167-186 | open without requiresAuth; closed to an unauthenticated session; closed to a non-admin when requiresAdmin is also set; open otherwise |
| Auth.RefreshAuthenticates | Frontend/repair-manager-frontend/src/auth.js:51-61 | a successful refresh leaves the session authenticated as the token's user |
| Auth.RolesNeedAuthentication | Frontend/repair-manager-frontend/src/auth.js:87-93 | roles are reported only for an authenticated session with a stored user |
| Auth.LogoutClosesProtectedRoutes | Frontend/repair-manager-frontend/src/auth.js:99-186 | after logout a route is accessible exactly when it does not require sign-in, and there are no roles |
| Auth.AdminOpensEveryRoute | Frontend/repair-manager-frontend/src/auth.js:167-186 | an admin session can open every route |
| Auth.AdminFlagAloneIsOpen | Frontend/repair-manager-frontend/src/auth.js:169-172 | a route with requiresAdmin but not requiresAuth is open to anyone |
| Auth.ExpiredTokenClosesProtectedRoutes | Frontend/repair-manager-frontend/src/auth.js:99-102 | an expired token closes protected routes and hides the user and roles, whatever the store's flag says |
| SessionMixin.RouteRequiresAuth | Frontend/repair-manager-frontend/src/mixins/SessionMixin.js:30-32 | true exactly when some matched record sets requiresAuth |
| SessionMixin.RouteRequiresAdmin | Frontend/repair-manager-frontend/src/mixins/SessionMixin.js:38-40 | true exactly when some matched record sets requiresAdmin |
| SessionMixin.CurrentUser | Frontend/repair-manager-frontend/src/mixins/SessionMixin.js:20-22 | the stored user, or an empty object whose every field reads undefined |
| SessionMixin.CanAccessCurrentRoute | Frontend/repair-manager-frontend/src/mixins/SessionMixin.js:46-64 | open unless some record requires sign-in; closed to an unauthenticated session; closed to a non-admin when some record requires admin; open otherwise |
| SessionMixin.SingleRecordAgreesWithCanAccess | Frontend/repair-manager-frontend/src/mixins/SessionMixin.js:46-64 | for a one-record route, the mixin's decision equals the helper's canAccess on that record's meta |
| SessionMixin.ProtectedParentClosesChildren | Frontend/repair-manager-frontend/src/mixins/SessionMixin.js:30-55 | a parent record that requires sign-in closes every child route to a signed-out session |
| SessionMixin.AdminOpensEveryRoute | Frontend/repair-manager-frontend/src/mixins/SessionMixin.js:46-64 | an admin session can open every route |
| SessionMixin.LoggedOutUserIsEmpty | Frontend/repair-manager-frontend/src/mixins/SessionMixin.js:20-22 | after logout the current user's fields read undefined |

## Left out

- Framework validation (`ModelState`, `[Required]`, string lengths) runs before the actions and is not modelled. Neither are the foreign-key failures the relational store raises on save, beyond a taken explicit id on insert.
- The concurrency rethrow in the update actions is not modelled. A row that vanished mid-update is answered `NotFound`, like an absent row.
- `decimal` rounding at 28 digits and the 2-digit column scale: money is exact `real`.
- PricingController.ParseItemType: `Enum.TryParse` also trims surrounding white space and accepts numeric strings and comma-separated flags. The model accepts only the three member names exactly, ignoring case, so " part " or "1" is refused here and accepted by the code.
- JSON text with whitespace or escapes in `PartIdsJson`: the model reads and writes the compact form the serializer produces.
- JavaScript floating point: numbers are integers. `Math.floor` of a fractional remaining time and fractional `exp` values are not modelled.
- Object identity in `===` (two distinct but equal objects) is not modelled; values compare structurally.
- localStorage, the axios calls, `async`/`dispatch` and the demo fallback data in the store actions' catch blocks are I/O and are left out.
- `auth.init`, `login`, `register` and `logout` chain asynchronous store actions and router redirects, and are left out. Their store effects are `Store.SetAuth`, `Store.Login` and `Store.Logout`.
- The store lists for service categories, product categories, manufacturers, services, parts, workflows, programs and user roles use the same replace-by-id and delete-by-id pattern. `Store.UpdateById` and `Store.DeleteById` cover them; only devices, work orders, prices, groups, service parts and inventory have their own members.
- The manufacturer and service-category endpoints pass straight through to the store with the same id-mismatch check as the endpoints modelled.
- The authentication, user and token-signing services are password hashing, JWT signing and identity-library calls.
- Migrations, seeding and startup configuration are schema, seed data and middleware setup.
- The GET-by-id endpoints and the display-name population in listings read rows without changing them.
- A token payload that decodes to something other than an object is treated as a failed decode.
- The `RepairWorkflow` and `RepairProgram` model classes and the `CatalogItemType` enum are not part of this model's sources. Their fields are the ones the controllers use.
- Store.AddWorkOrders: its own contract states only the counter and the length; the numbering and distinctness of codes are stated by `Store.AddWorkOrdersNumbering` and `Store.CodesAreDistinct`.
- Tables.AssignKey: SQLite's AUTOINCREMENT key is one more than the largest key the table has ever held. The model keeps no such high-water mark and takes one more than the largest key in use. `WorkOrdersController.PostThenDeleteRestores` relies on this: in the store a delete after a create leaves the high-water mark raised.
- StatusCodesController.SortIsStable: the tie order it states is the model's choice. SQL's `ORDER BY` leaves codes with equal sort order in no promised order.
- Js.TextToNumber: `Number()` also reads hexadecimal ("0x10"), exponent ("1e3"), fractional and "Infinity" texts, and trims vertical tab, form feed, no-break space, the byte order mark and the Unicode line and space separators. The model reads only signed decimal digit strings and trims only space, tab, line feed and carriage return (`Js.IsSpace`); other texts become NaN.
- Js.ParseInt: `parseInt` skips the same wider set of leading white space as `Number()` (no-break space, the byte order mark, vertical tab, form feed and the Unicode separators), so `parseInt("\u00a05")` is 5 in the code and NaN in the model, which skips only `Js.IsSpace`.
- SessionMixin.CanAccessCurrentRoute: in the component, `isAuthenticated` and `isAdmin` are computed properties that Vue caches on their reactive inputs. Local storage and `Date.now()` are not reactive, so a cached value can outlive the token's expiry. The model recomputes both from the session each time.
