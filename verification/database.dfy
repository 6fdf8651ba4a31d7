/**
 * The rows the controllers read and write, and the store that holds them:
 * one table per entity, each a map from primary key to row. Devices, parts,
 * services and groups are only ever looked up by key here, so their
 * tables are sets of keys.
 */
module Database {
  import opened PricingModel
  import opened WorkOrderModel

  /** A repair workflow: a name and its allowed statuses, kept as JSON text. */
  datatype RepairWorkflow = RepairWorkflow(id: int, name: string, statusesJson: string)

  /** A repair program, bound to one workflow. */
  datatype RepairProgram = RepairProgram(id: int, name: string, repairWorkflowId: int)

  /** Stock of one catalog item held by one group. */
  datatype InventoryItem = InventoryItem(
    id: int,
    groupId: int,
    catalogItemType: string,
    catalogItemId: int,
    quantity: int,
    minimumQuantity: int,
    lastUpdated: int)

  /** A status code offered to the UI, shown in `sortOrder` order. */
  datatype StatusCode = StatusCode(
    id: int,
    code: string,
    description: string,
    isActive: bool,
    sortOrder: int)

  datatype Db = Db(
    devices: set<int>,
    parts: set<int>,
    services: set<int>,
    groups: set<int>,
    workflows: map<int, RepairWorkflow>,
    programs: map<int, RepairProgram>,
    workOrders: map<int, WorkOrder>,
    pricing: map<int, CatalogPricing>,
    inventory: map<int, InventoryItem>,
    statusCodes: map<int, StatusCode>)

  /** Every row is stored under its own id. */
  ghost predicate WellKeyed(db: Db)
  {
    && (forall k :: k in db.workflows ==> db.workflows[k].id == k)
    && (forall k :: k in db.programs ==> db.programs[k].id == k)
    && (forall k :: k in db.workOrders ==> db.workOrders[k].id == k)
    && (forall k :: k in db.pricing ==> db.pricing[k].id == k)
    && (forall k :: k in db.inventory ==> db.inventory[k].id == k)
    && (forall k :: k in db.statusCodes ==> db.statusCodes[k].id == k)
  }

  /**
   * The links the program and workflow endpoints guard: every work order
   * names a stored program, and every program a stored workflow.
   */
  ghost predicate LinksHold(db: Db)
  {
    && (forall k :: k in db.workOrders ==> db.workOrders[k].repairProgramId in db.programs)
    && (forall k :: k in db.programs ==> db.programs[k].repairWorkflowId in db.workflows)
  }
}
