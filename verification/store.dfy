/**
 * The frontend's Vuex store: its state, the mutations that edit its lists,
 * the getters that select from them, and the `addWorkOrder` action that
 * numbers new work orders. Each mutation maps the state and its payload to
 * the next state. Lists hold plain records; ids are numbers.
 */
module Store {
  import opened Wrappers
  import opened Tables
  import opened Js
  import Decimal
  import Text
  import PricingModel
  import JwtService

  datatype Device = Device(id: int, name: string)
  datatype Service = Service(id: int, name: string, deviceId: Value)
  datatype Part = Part(id: int, name: string, deviceId: Value)

  /** One part used by one service, in some quantity. */
  datatype ServicePart = ServicePart(id: int, serviceId: int, partId: int, quantity: int)

  datatype Group = Group(id: int, name: string)

  /** A work order as the list shows it, with display names filled in. */
  datatype WorkOrderEntry = WorkOrderEntry(
    id: int,
    code: string,
    groupId: Value,
    deviceId: Value,
    serviceId: Value,
    deviceName: string,
    serviceName: string,
    createdAt: string,
    updatedAt: Value,
    details: Props)

  /** Stock of one catalog item in one group; (group, item, type) identifies it. */
  datatype InventoryEntry = InventoryEntry(
    groupId: int,
    catalogItemId: int,
    catalogItemType: string,
    quantity: int,
    minimumQuantity: int)

  datatype State = State(
    devices: seq<Device>,
    services: seq<Service>,
    parts: seq<Part>,
    serviceParts: seq<ServicePart>,
    workOrders: seq<WorkOrderEntry>,
    workOrderCounter: int,
    groups: seq<Group>,
    currentGroup: Option<Group>,
    user: Option<JwtService.User>,
    isAuthenticated: bool,
    catalogPricing: seq<PricingModel.CatalogPricing>,
    inventory: seq<InventoryEntry>)

  /** The state the store starts in: empty lists, counter 0, nobody signed in. */
  function Initial(): (st: State)
    ensures |st.workOrders| == 0 && |st.serviceParts| == 0 && |st.inventory| == 0
    ensures st.workOrderCounter == 0
    ensures st.currentGroup.None? && st.user.None? && !st.isAuthenticated
  {
    State([], [], [], [], [], 0, [], None, None, false, [], [])
  }

  // ----- Replace-by-id and delete-by-id -----

  /**
   * The `UPDATE_*` mutations: `findIndex` on the id, then `splice` the new
   * record in. Only the first record with that id is replaced; with none,
   * the list is unchanged.
   */
  function UpdateById<T>(xs: seq<T>, idOf: T -> int, y: T): (r: seq<T>)
    ensures |r| == |xs|
    ensures (forall i :: 0 <= i < |xs| ==> idOf(xs[i]) != idOf(y)) ==> r == xs
    ensures (exists i :: 0 <= i < |xs| && idOf(xs[i]) == idOf(y)) ==> y in r
    ensures forall i :: 0 <= i < |xs| ==>
      || r[i] == xs[i]
      || (r[i] == y && idOf(xs[i]) == idOf(y) && forall j :: 0 <= j < i ==> idOf(xs[j]) != idOf(y))
    ensures forall i :: (0 <= i < |xs| && idOf(xs[i]) == idOf(y)
      && (forall j :: 0 <= j < i ==> idOf(xs[j]) != idOf(y))) ==> r[i] == y
    ensures forall i, j :: 0 <= j < i < |xs| && idOf(xs[j]) == idOf(y) ==> r[i] == xs[i]
  {
    ReplaceFirst(xs, x => idOf(x) == idOf(y), y)
  }

  /** The `DELETE_*` mutations: `filter` out every record with the id. */
  function DeleteById<T(!new)>(xs: seq<T>, idOf: T -> int, id: int): (r: seq<T>)
    ensures forall x :: x in r <==> x in xs && idOf(x) != id
    ensures FilteredFrom(r, xs, x => idOf(x) != id)
  {
    FilterIsFilteredFrom(xs, x => idOf(x) != id);
    Filter(xs, x => idOf(x) != id)
  }

  /** Deleting an id after updating the record with that id is the same as deleting it at once. */
  lemma DeleteAfterUpdate<T(!new)>(xs: seq<T>, idOf: T -> int, y: T)
    ensures DeleteById(UpdateById(xs, idOf, y), idOf, idOf(y)) == DeleteById(xs, idOf, idOf(y))
  {
    var hit := x => idOf(x) == idOf(y);
    match FirstIndex(xs, hit)
    case None =>
    case Some(i) =>
      FilterReplaceDropped(xs, i, y, x => idOf(x) != idOf(y));
  }

  /** An update keeps the ids of the list, position by position. */
  lemma UpdateKeepsIds<T>(xs: seq<T>, idOf: T -> int, y: T)
    ensures forall i :: 0 <= i < |xs| ==> idOf(UpdateById(xs, idOf, y)[i]) == idOf(xs[i])
  {
  }

  function DeviceId(d: Device): int { d.id }
  function PartId(p: Part): int { p.id }
  function OrderId(w: WorkOrderEntry): int { w.id }
  function PriceId(p: PricingModel.CatalogPricing): int { p.id }
  function GroupId(g: Group): int { g.id }

  /** UPDATE_DEVICE: only the device list changes; its first device with the id is replaced in place. */
  function UpdateDevice(st: State, d: Device): (r: State)
    ensures r.(devices := st.devices) == st
    ensures |r.devices| == |st.devices|
    ensures (exists i :: 0 <= i < |st.devices| && st.devices[i].id == d.id) ==> d in r.devices
    ensures forall i :: 0 <= i < |st.devices| && st.devices[i].id != d.id ==> r.devices[i] == st.devices[i]
    ensures forall i :: (0 <= i < |st.devices| && st.devices[i].id == d.id
      && (forall j :: 0 <= j < i ==> st.devices[j].id != d.id)) ==> r.devices[i] == d
    ensures forall i, j :: 0 <= j < i < |st.devices| && st.devices[j].id == d.id ==> r.devices[i] == st.devices[i]
  {
    st.(devices := UpdateById(st.devices, DeviceId, d))
  }

  /** DELETE_DEVICE: only the device list changes, losing the devices with that id. */
  function DeleteDevice(st: State, id: int): (r: State)
    ensures r.(devices := st.devices) == st
    ensures forall d :: d in r.devices <==> d in st.devices && d.id != id
    ensures FilteredFrom(r.devices, st.devices, (d: Device) => d.id != id)
  {
    st.(devices := DeleteById(st.devices, DeviceId, id))
  }

  /** UPDATE_WORK_ORDER: the first order with the matching id is replaced in place. */
  function UpdateWorkOrder(st: State, w: WorkOrderEntry): (r: State)
    ensures r.(workOrders := st.workOrders) == st
    ensures |r.workOrders| == |st.workOrders|
    ensures (exists i :: 0 <= i < |st.workOrders| && st.workOrders[i].id == w.id) ==> w in r.workOrders
    ensures forall i :: 0 <= i < |st.workOrders| && st.workOrders[i].id != w.id ==> r.workOrders[i] == st.workOrders[i]
    ensures forall i :: (0 <= i < |st.workOrders| && st.workOrders[i].id == w.id
      && (forall j :: 0 <= j < i ==> st.workOrders[j].id != w.id)) ==> r.workOrders[i] == w
    ensures forall i, j :: 0 <= j < i < |st.workOrders| && st.workOrders[j].id == w.id ==> r.workOrders[i] == st.workOrders[i]
  {
    st.(workOrders := UpdateById(st.workOrders, OrderId, w))
  }

  /** DELETE_WORK_ORDER: the orders with that id leave the list. */
  function DeleteWorkOrder(st: State, id: int): (r: State)
    ensures r.(workOrders := st.workOrders) == st
    ensures forall w :: w in r.workOrders <==> w in st.workOrders && w.id != id
    ensures FilteredFrom(r.workOrders, st.workOrders, (w: WorkOrderEntry) => w.id != id)
  {
    st.(workOrders := DeleteById(st.workOrders, OrderId, id))
  }

  /** ADD_WORK_ORDER: the order goes to the end of the list. */
  function AddWorkOrderEntry(st: State, w: WorkOrderEntry): (r: State)
    ensures r.(workOrders := st.workOrders) == st
    ensures |r.workOrders| == |st.workOrders| + 1 && r.workOrders[|st.workOrders|] == w
    ensures r.workOrders[..|st.workOrders|] == st.workOrders
  {
    st.(workOrders := st.workOrders + [w])
  }

  /** SET_WORK_ORDER_COUNTER. */
  function SetWorkOrderCounter(st: State, counter: int): (r: State)
    ensures r.(workOrderCounter := st.workOrderCounter) == st
    ensures r.workOrderCounter == counter
  {
    st.(workOrderCounter := counter)
  }

  /** UPDATE_CATALOG_PRICE: the first price with the matching id is replaced in place. */
  function UpdateCatalogPrice(st: State, p: PricingModel.CatalogPricing): (r: State)
    ensures r.(catalogPricing := st.catalogPricing) == st
    ensures |r.catalogPricing| == |st.catalogPricing|
    ensures (exists i :: 0 <= i < |st.catalogPricing| && st.catalogPricing[i].id == p.id) ==> p in r.catalogPricing
    ensures forall i :: 0 <= i < |st.catalogPricing| && st.catalogPricing[i].id != p.id ==>
      r.catalogPricing[i] == st.catalogPricing[i]
    ensures forall i :: (0 <= i < |st.catalogPricing| && st.catalogPricing[i].id == p.id
      && (forall j :: 0 <= j < i ==> st.catalogPricing[j].id != p.id)) ==> r.catalogPricing[i] == p
    ensures forall i, j :: 0 <= j < i < |st.catalogPricing| && st.catalogPricing[j].id == p.id ==> r.catalogPricing[i] == st.catalogPricing[i]
  {
    st.(catalogPricing := UpdateById(st.catalogPricing, PriceId, p))
  }

  /** DELETE_CATALOG_PRICE: the prices with that id leave the list. */
  function DeleteCatalogPrice(st: State, id: int): (r: State)
    ensures r.(catalogPricing := st.catalogPricing) == st
    ensures forall p :: p in r.catalogPricing <==> p in st.catalogPricing && p.id != id
    ensures FilteredFrom(r.catalogPricing, st.catalogPricing, (p: PricingModel.CatalogPricing) => p.id != id)
  {
    st.(catalogPricing := DeleteById(st.catalogPricing, PriceId, id))
  }

  // ----- Services and their parts -----

  predicate SamePair(sp: ServicePart, serviceId: int, partId: int)
  {
    sp.serviceId == serviceId && sp.partId == partId
  }

  /** No two entries link the same service to the same part. */
  predicate NoDuplicatePairs(xs: seq<ServicePart>)
  {
    forall i, j :: 0 <= i < j < |xs| ==> !SamePair(xs[j], xs[i].serviceId, xs[i].partId)
  }

  /** The total quantity of a part that the entries assign to a service. */
  function QuantityOf(xs: seq<ServicePart>, serviceId: int, partId: int): int
  {
    if |xs| == 0 then 0
    else (if SamePair(xs[0], serviceId, partId) then xs[0].quantity else 0) + QuantityOf(xs[1..], serviceId, partId)
  }

  /**
   * ADD_SERVICE_PART: the quantity (1 when not given) is added to the first
   * entry for the pair; without one, a new entry stamped with `nowMs` as its
   * id is appended.
   */
  function AddServicePart(st: State, serviceId: int, partId: int, quantity: Option<int>, nowMs: int): (r: State)
    ensures r.(serviceParts := st.serviceParts) == st
    ensures (forall i :: 0 <= i < |st.serviceParts| ==> !SamePair(st.serviceParts[i], serviceId, partId)) ==>
      r.serviceParts == st.serviceParts + [ServicePart(nowMs, serviceId, partId, quantity.GetOr(1))]
    ensures (exists i :: 0 <= i < |st.serviceParts| && SamePair(st.serviceParts[i], serviceId, partId)) ==>
      && |r.serviceParts| == |st.serviceParts|
      && forall i :: 0 <= i < |st.serviceParts| ==>
           || r.serviceParts[i] == st.serviceParts[i]
           || (SamePair(st.serviceParts[i], serviceId, partId)
               && r.serviceParts[i] == st.serviceParts[i].(quantity := st.serviceParts[i].quantity + quantity.GetOr(1)))
    ensures forall i :: (0 <= i < |st.serviceParts| && SamePair(st.serviceParts[i], serviceId, partId)
      && (forall j :: 0 <= j < i ==> !SamePair(st.serviceParts[j], serviceId, partId))) ==>
        r.serviceParts[i] == st.serviceParts[i].(quantity := st.serviceParts[i].quantity + quantity.GetOr(1))
    ensures forall i, j :: 0 <= j < i < |st.serviceParts| && SamePair(st.serviceParts[j], serviceId, partId) ==>
      r.serviceParts[i] == st.serviceParts[i]
  {
    st.(serviceParts := AddPartEntry(st.serviceParts, serviceId, partId, quantity.GetOr(1), nowMs))
  }

  /** The list half of ADD_SERVICE_PART, with the quantity already defaulted. */
  function AddPartEntry(xs: seq<ServicePart>, serviceId: int, partId: int, q: int, nowMs: int): seq<ServicePart>
  {
    match FirstIndex(xs, (sp: ServicePart) => SamePair(sp, serviceId, partId))
    case Some(i) => xs[i := xs[i].(quantity := xs[i].quantity + q)]
    case None => xs + [ServicePart(nowMs, serviceId, partId, q)]
  }

  lemma {:induction false} QuantityOfAppend(xs: seq<ServicePart>, e: ServicePart, serviceId: int, partId: int)
    ensures QuantityOf(xs + [e], serviceId, partId)
         == QuantityOf(xs, serviceId, partId) + (if SamePair(e, serviceId, partId) then e.quantity else 0)
  {
    if |xs| > 0 {
      QuantityOfAppend(xs[1..], e, serviceId, partId);
      assert (xs + [e])[1..] == xs[1..] + [e];
    }
  }

  lemma {:induction false} QuantityOfReplace(xs: seq<ServicePart>, i: nat, e: ServicePart, serviceId: int, partId: int)
    requires i < |xs|
    ensures QuantityOf(xs[i := e], serviceId, partId)
         == QuantityOf(xs, serviceId, partId)
            - (if SamePair(xs[i], serviceId, partId) then xs[i].quantity else 0)
            + (if SamePair(e, serviceId, partId) then e.quantity else 0)
  {
    if i > 0 {
      QuantityOfReplace(xs[1..], i - 1, e, serviceId, partId);
      assert xs[i := e][1..] == xs[1..][i - 1 := e];
    } else {
      assert xs[i := e][1..] == xs[1..];
    }
  }

  /**
   * Adding a part to a service raises that pair's total quantity by the
   * amount added and leaves every other pair's total as it was.
   */
  lemma AddServicePartAccumulates(st: State, serviceId: int, partId: int, quantity: Option<int>, nowMs: int,
                                  s: int, p: int)
    ensures QuantityOf(AddServicePart(st, serviceId, partId, quantity, nowMs).serviceParts, s, p)
         == QuantityOf(st.serviceParts, s, p) + (if s == serviceId && p == partId then quantity.GetOr(1) else 0)
  {
    AddPartEntryAccumulates(st.serviceParts, serviceId, partId, quantity.GetOr(1), nowMs, s, p);
  }

  /** The pair's total grows by `q`; every other pair's total is as it was. */
  lemma AddPartEntryAccumulates(xs: seq<ServicePart>, serviceId: int, partId: int, q: int, nowMs: int, s: int, p: int)
    ensures QuantityOf(AddPartEntry(xs, serviceId, partId, q, nowMs), s, p)
         == QuantityOf(xs, s, p) + (if s == serviceId && p == partId then q else 0)
  {
    match FirstIndex(xs, (sp: ServicePart) => SamePair(sp, serviceId, partId))
    case Some(i) =>
      QuantityOfReplace(xs, i, xs[i].(quantity := xs[i].quantity + q), s, p);
    case None =>
      QuantityOfAppend(xs, ServicePart(nowMs, serviceId, partId, q), s, p);
  }

  /** Adding a part to a service never creates a second entry for a pair. */
  lemma AddServicePartKeepsPairsUnique(st: State, serviceId: int, partId: int, quantity: Option<int>, nowMs: int)
    requires NoDuplicatePairs(st.serviceParts)
    ensures NoDuplicatePairs(AddServicePart(st, serviceId, partId, quantity, nowMs).serviceParts)
  {
  }

  /** Adding to an existing pair keeps the number of entries. */
  lemma AddToExistingPairKeepsLength(st: State, serviceId: int, partId: int, quantity: Option<int>, nowMs: int, i: int)
    requires 0 <= i < |st.serviceParts| && SamePair(st.serviceParts[i], serviceId, partId)
    ensures |AddServicePart(st, serviceId, partId, quantity, nowMs).serviceParts| == |st.serviceParts|
  {
  }

  /** UPDATE_SERVICE_PART: the first entry with the id gets the new quantity. */
  function UpdateServicePart(st: State, id: int, quantity: int): (r: State)
    ensures r.(serviceParts := st.serviceParts) == st
    ensures |r.serviceParts| == |st.serviceParts|
    ensures forall i :: (0 <= i < |st.serviceParts| && st.serviceParts[i].id == id
      && (forall j :: 0 <= j < i ==> st.serviceParts[j].id != id)) ==>
        r.serviceParts[i] == st.serviceParts[i].(quantity := quantity)
    ensures forall i :: 0 <= i < |st.serviceParts| && st.serviceParts[i].id != id ==> r.serviceParts[i] == st.serviceParts[i]
    ensures forall i, j :: 0 <= j < i < |st.serviceParts| && st.serviceParts[j].id == id ==> r.serviceParts[i] == st.serviceParts[i]
  {
    match FirstIndex(st.serviceParts, (sp: ServicePart) => sp.id == id)
    case Some(i) => st.(serviceParts := st.serviceParts[i := st.serviceParts[i].(quantity := quantity)])
    case None => st
  }

  /** REMOVE_SERVICE_PART: the entries with that id leave the list. */
  function RemoveServicePart(st: State, id: int): (r: State)
    ensures r.(serviceParts := st.serviceParts) == st
    ensures forall sp :: sp in r.serviceParts <==> sp in st.serviceParts && sp.id != id
    ensures FilteredFrom(r.serviceParts, st.serviceParts, (sp: ServicePart) => sp.id != id)
  {
    var keep := (sp: ServicePart) => sp.id != id;
    FilterIsFilteredFrom(st.serviceParts, keep);
    st.(serviceParts := Filter(st.serviceParts, keep))
  }

  /**
   * DELETE_PART: the part leaves the part list, and every entry linking a
   * service to it leaves the service-part list.
   */
  function DeletePart(st: State, partId: int): (r: State)
    ensures r.(parts := st.parts, serviceParts := st.serviceParts) == st
    ensures forall p :: p in r.parts <==> p in st.parts && p.id != partId
    ensures FilteredFrom(r.parts, st.parts, (p: Part) => p.id != partId)
    ensures forall sp :: sp in r.serviceParts <==> sp in st.serviceParts && sp.partId != partId
    ensures FilteredFrom(r.serviceParts, st.serviceParts, (sp: ServicePart) => sp.partId != partId)
  {
    var keep := (sp: ServicePart) => sp.partId != partId;
    FilterIsFilteredFrom(st.serviceParts, keep);
    st.(parts := DeleteById(st.parts, PartId, partId),
        serviceParts := Filter(st.serviceParts, keep))
  }

  /** Filtering keeps pairs unique. */
  lemma {:induction false} FilterKeepsPairsUnique(xs: seq<ServicePart>, keep: ServicePart -> bool)
    requires NoDuplicatePairs(xs)
    ensures NoDuplicatePairs(Filter(xs, keep))
  {
    if |xs| > 0 {
      assert NoDuplicatePairs(xs[1..]);
      FilterKeepsPairsUnique(xs[1..], keep);
      var rest := Filter(xs[1..], keep);
      if keep(xs[0]) {
        forall j | 0 <= j < |rest|
          ensures !SamePair(rest[j], xs[0].serviceId, xs[0].partId)
        {
          assert rest[j] in xs[1..];
        }
        var f := Filter(xs, keep);
        assert f == [xs[0]] + rest;
      }
    }
  }

  /** Removing entries, one part at a time or by entry id, keeps pairs unique. */
  lemma DeletionsKeepPairsUnique(st: State, partId: int, id: int)
    requires NoDuplicatePairs(st.serviceParts)
    ensures NoDuplicatePairs(DeletePart(st, partId).serviceParts)
    ensures NoDuplicatePairs(RemoveServicePart(st, id).serviceParts)
  {
    FilterKeepsPairsUnique(st.serviceParts, (sp: ServicePart) => sp.partId != partId);
    FilterKeepsPairsUnique(st.serviceParts, (sp: ServicePart) => sp.id != id);
  }

  /** After a part is deleted, no service lists any quantity of it. */
  lemma DeletedPartHasNoQuantity(st: State, partId: int, serviceId: int)
    ensures QuantityOf(DeletePart(st, partId).serviceParts, serviceId, partId) == 0
  {
    NoPairNoQuantity(DeletePart(st, partId).serviceParts, serviceId, partId);
  }

  lemma {:induction false} NoPairNoQuantity(xs: seq<ServicePart>, serviceId: int, partId: int)
    requires forall sp :: sp in xs ==> sp.partId != partId
    ensures QuantityOf(xs, serviceId, partId) == 0
  {
    if |xs| > 0 {
      assert xs[0] in xs;
      NoPairNoQuantity(xs[1..], serviceId, partId);
    }
  }

  /** UPDATE_SERVICE_PART changes no pair, so pairs stay unique. */
  lemma UpdateServicePartKeepsPairsUnique(st: State, id: int, quantity: int)
    requires NoDuplicatePairs(st.serviceParts)
    ensures NoDuplicatePairs(UpdateServicePart(st, id, quantity).serviceParts)
  {
  }

  // ----- Inventory, keyed by group, item and type -----

  predicate SameSlot(x: InventoryEntry, groupId: int, catalogItemId: int, catalogItemType: string)
  {
    x.groupId == groupId && x.catalogItemId == catalogItemId && x.catalogItemType == catalogItemType
  }

  /**
   * UPDATE_INVENTORY_ITEM: the first entry for the same group, item and type
   * is replaced; entries for any other key are untouched.
   */
  function UpdateInventoryItem(st: State, item: InventoryEntry): (r: State)
    ensures r.(inventory := st.inventory) == st
    ensures |r.inventory| == |st.inventory|
    ensures forall i :: 0 <= i < |st.inventory| && !SameSlot(st.inventory[i], item.groupId, item.catalogItemId, item.catalogItemType) ==>
      r.inventory[i] == st.inventory[i]
    ensures (exists i :: 0 <= i < |st.inventory| && SameSlot(st.inventory[i], item.groupId, item.catalogItemId, item.catalogItemType)) ==>
      item in r.inventory
    ensures (forall i :: 0 <= i < |st.inventory| ==> !SameSlot(st.inventory[i], item.groupId, item.catalogItemId, item.catalogItemType)) ==>
      r == st
    ensures forall i :: (0 <= i < |st.inventory| && SameSlot(st.inventory[i], item.groupId, item.catalogItemId, item.catalogItemType)
      && (forall j :: 0 <= j < i ==> !SameSlot(st.inventory[j], item.groupId, item.catalogItemId, item.catalogItemType))) ==> r.inventory[i] == item
    ensures forall i, j :: 0 <= j < i < |st.inventory| && SameSlot(st.inventory[j], item.groupId, item.catalogItemId, item.catalogItemType) ==> r.inventory[i] == st.inventory[i]
  {
    var hit := (x: InventoryEntry) => SameSlot(x, item.groupId, item.catalogItemId, item.catalogItemType);
    st.(inventory := ReplaceFirst(st.inventory, hit, item))
  }

  /** DELETE_INVENTORY_ITEM: every entry with that group, item and type leaves the list. */
  function DeleteInventoryItem(st: State, groupId: int, catalogItemId: int, catalogItemType: string): (r: State)
    ensures r.(inventory := st.inventory) == st
    ensures forall x :: x in r.inventory <==> x in st.inventory && !SameSlot(x, groupId, catalogItemId, catalogItemType)
    ensures FilteredFrom(r.inventory, st.inventory, (x: InventoryEntry) => !SameSlot(x, groupId, catalogItemId, catalogItemType))
  {
    var keep := (x: InventoryEntry) => !SameSlot(x, groupId, catalogItemId, catalogItemType);
    FilterIsFilteredFrom(st.inventory, keep);
    st.(inventory := Filter(st.inventory, keep))
  }

  /** Quantities play no part in which entry an update or delete selects. */
  lemma InventoryKeyedBySlotOnly(st: State, item: InventoryEntry, quantity: int, minimumQuantity: int)
    ensures var other := item.(quantity := quantity, minimumQuantity := minimumQuantity);
      && DeleteInventoryItem(UpdateInventoryItem(st, item), item.groupId, item.catalogItemId, item.catalogItemType)
         == DeleteInventoryItem(UpdateInventoryItem(st, other), item.groupId, item.catalogItemId, item.catalogItemType)
      && DeleteInventoryItem(UpdateInventoryItem(st, item), item.groupId, item.catalogItemId, item.catalogItemType)
         == DeleteInventoryItem(st, item.groupId, item.catalogItemId, item.catalogItemType)
  {
    var other := item.(quantity := quantity, minimumQuantity := minimumQuantity);
    var hit := (x: InventoryEntry) => SameSlot(x, item.groupId, item.catalogItemId, item.catalogItemType);
    var keep := (x: InventoryEntry) => !SameSlot(x, item.groupId, item.catalogItemId, item.catalogItemType);
    assert hit == (x: InventoryEntry) => SameSlot(x, other.groupId, other.catalogItemId, other.catalogItemType);
    match FirstIndex(st.inventory, hit)
    case None =>
    case Some(i) =>
      FilterReplaceDropped(st.inventory, i, item, keep);
      FilterReplaceDropped(st.inventory, i, other, keep);
  }

  // ----- Groups -----

  /** The current group, when there is one, is a member of the group list. */
  predicate CurrentGroupListed(st: State)
  {
    st.currentGroup.None? || st.currentGroup.value in st.groups
  }

  /** UPDATE_GROUP: the first group with the id is replaced in the list, and as the current group when the ids agree. */
  function UpdateGroup(st: State, g: Group): (r: State)
    ensures r.(groups := st.groups, currentGroup := st.currentGroup) == st
    ensures |r.groups| == |st.groups|
    ensures st.currentGroup.Some? && st.currentGroup.value.id == g.id ==> r.currentGroup == Some(g)
    ensures st.currentGroup.None? || st.currentGroup.value.id != g.id ==> r.currentGroup == st.currentGroup
    ensures (exists i :: 0 <= i < |st.groups| && st.groups[i].id == g.id) ==> g in r.groups
    ensures forall i :: 0 <= i < |st.groups| && st.groups[i].id != g.id ==> r.groups[i] == st.groups[i]
    ensures forall i :: (0 <= i < |st.groups| && st.groups[i].id == g.id
      && (forall j :: 0 <= j < i ==> st.groups[j].id != g.id)) ==> r.groups[i] == g
    ensures forall i, j :: 0 <= j < i < |st.groups| && st.groups[j].id == g.id ==> r.groups[i] == st.groups[i]
  {
    var current := if st.currentGroup.Some? && st.currentGroup.value.id == g.id then Some(g) else st.currentGroup;
    st.(groups := UpdateById(st.groups, GroupId, g), currentGroup := current)
  }

  /** DELETE_GROUP: removed from the list, and cleared as the current group when the ids agree. */
  function DeleteGroup(st: State, id: int): (r: State)
    ensures r.(groups := st.groups, currentGroup := st.currentGroup) == st
    ensures forall g :: g in r.groups <==> g in st.groups && g.id != id
    ensures FilteredFrom(r.groups, st.groups, (g: Group) => g.id != id)
    ensures r.currentGroup.Some? ==> r.currentGroup.value.id != id
    ensures st.currentGroup.Some? && st.currentGroup.value.id != id ==> r.currentGroup == st.currentGroup
  {
    var current := if st.currentGroup.Some? && st.currentGroup.value.id == id then None else st.currentGroup;
    st.(groups := DeleteById(st.groups, GroupId, id), currentGroup := current)
  }

  /** Updating or deleting a group keeps the current group in the list. */
  lemma GroupMutationsKeepCurrentListed(st: State, g: Group, id: int)
    requires CurrentGroupListed(st)
    ensures CurrentGroupListed(UpdateGroup(st, g))
    ensures CurrentGroupListed(DeleteGroup(st, id))
  {
    if st.currentGroup.Some? && st.currentGroup.value.id == g.id {
      var j :| 0 <= j < |st.groups| && st.groups[j] == st.currentGroup.value;
      assert exists i :: 0 <= i < |st.groups| && st.groups[i].id == g.id;
    } else if st.currentGroup.Some? {
      var j :| 0 <= j < |st.groups| && st.groups[j] == st.currentGroup.value;
      assert UpdateGroup(st, g).groups[j] == st.groups[j];
    }
  }

  // ----- Getters -----

  /** getCompatibleParts: the parts with no device, or with the service's device. */
  function CompatibleParts(st: State, service: Service): (r: seq<Part>)
    ensures forall p :: p in r <==> p in st.parts && (p.deviceId == Null || p.deviceId == service.deviceId)
    ensures FilteredFrom(r, st.parts, (p: Part) => p.deviceId == Null || p.deviceId == service.deviceId)
  {
    var keep := (p: Part) => p.deviceId == Null || p.deviceId == service.deviceId;
    FilterIsFilteredFrom(st.parts, keep);
    Filter(st.parts, keep)
  }

  /** getWorkOrdersByGroup: every order for "all", otherwise those whose group is the argument. */
  function WorkOrdersByGroup(st: State, groupId: Value): (r: seq<WorkOrderEntry>)
    ensures groupId == Str("all") ==> r == st.workOrders
    ensures groupId != Str("all") ==> forall w :: w in r <==> w in st.workOrders && w.groupId == groupId
    ensures groupId != Str("all") ==> FilteredFrom(r, st.workOrders, (w: WorkOrderEntry) => w.groupId == groupId)
  {
    if groupId == Str("all") then st.workOrders
    else
      var keep := (w: WorkOrderEntry) => w.groupId == groupId;
      FilterIsFilteredFrom(st.workOrders, keep);
      Filter(st.workOrders, keep)
  }

  /**
   * The isAdmin getter, `state.user && state.user.isAdmin`, read as a
   * condition: only a signed-in user whose flag is truthy is an admin.
   */
  function IsAdmin(st: State): (r: bool)
    ensures r ==> st.user.Some?
    ensures st.user.Some? ==> (r <==> Truthy(st.user.value.isAdmin))
  {
    Truthy(if st.user.Some? then st.user.value.isAdmin else Null)
  }

  /** getInventoryByGroup: the entries of one group. */
  function InventoryByGroup(st: State, groupId: int): (r: seq<InventoryEntry>)
    ensures forall x :: x in r <==> x in st.inventory && x.groupId == groupId
    ensures FilteredFrom(r, st.inventory, (x: InventoryEntry) => x.groupId == groupId)
  {
    FilterIsFilteredFrom(st.inventory, (x: InventoryEntry) => x.groupId == groupId);
    Filter(st.inventory, (x: InventoryEntry) => x.groupId == groupId)
  }

  /** getCurrentGroupInventory: nothing without a current group, else that group's entries. */
  function CurrentGroupInventory(st: State): (r: seq<InventoryEntry>)
    ensures st.currentGroup.None? ==> r == []
    ensures st.currentGroup.Some? ==> r == InventoryByGroup(st, st.currentGroup.value.id)
  {
    if st.currentGroup.None? then []
    else Filter(st.inventory, (x: InventoryEntry) => x.groupId == st.currentGroup.value.id)
  }

  // ----- Sign-in state -----

  /** SET_AUTH. */
  function SetAuth(st: State, user: Option<JwtService.User>, isAuthenticated: bool): (r: State)
    ensures r.(user := st.user, isAuthenticated := st.isAuthenticated) == st
    ensures r.user == user && r.isAuthenticated == isAuthenticated
  {
    st.(user := user, isAuthenticated := isAuthenticated)
  }

  /** LOGOUT: nobody is signed in. */
  function Logout(st: State): (r: State)
    ensures r.(user := st.user, isAuthenticated := st.isAuthenticated) == st
    ensures r.user.None? && !r.isAuthenticated
    ensures !IsAdmin(r)
  {
    st.(user := None, isAuthenticated := false)
  }

  /** The end of the login action: the user is marked admin before SET_AUTH. */
  function Login(st: State, user: JwtService.User): (r: State)
    ensures IsAdmin(r) && r.isAuthenticated
    ensures r.(user := st.user, isAuthenticated := st.isAuthenticated) == st
    ensures r.user.Some? && r.user.value.(isAdmin := user.isAdmin) == user
  {
    SetAuth(st, Some(user.(isAdmin := Bool(true))), true)
  }

  // ----- Numbering work orders -----

  /** `"WO" + String(counter).padStart(5, "0")`. */
  function WorkOrderCode(counter: int): (code: string)
    ensures |code| >= 7 && code[..2] == "WO"
    ensures 0 <= counter < 100000 ==> |code| == 7
  {
    var digits := Decimal.Show(counter);
    assert 0 <= counter < 100000 ==> |digits| <= 5 by {
      if 0 <= counter < 100000 {
        ShowAtMostFive(counter);
      }
    }
    "WO" + Text.PadStart(digits, 5, '0')
  }

  lemma ShowAtMostFive(n: nat)
    requires n < 100000
    ensures |Decimal.Show(n)| <= 5
  {
    ShowNatShort(n, 5);
  }

  function Pow10(k: nat): nat
  {
    if k == 0 then 1 else 10 * Pow10(k - 1)
  }

  /** A number below 10^k has at most k digits. */
  lemma {:induction false} ShowNatShort(n: nat, k: nat)
    requires 1 <= k && n < Pow10(k)
    ensures |Decimal.ShowNat(n)| <= k
  {
    if n >= 10 {
      ShowNatShort(n / 10, k - 1);
    }
  }

  /** Drops leading '0's, keeping at least one character. */
  function StripZeros(s: string): (r: string)
    ensures |s| >= 1 ==> |r| >= 1
  {
    if |s| > 1 && s[0] == '0' then StripZeros(s[1..]) else s
  }

  /** The counter a code was made from, read back from its digits. */
  function CounterOf(code: string): (r: Option<int>)
  {
    if |code| < 2 || code[..2] != "WO" then None else Decimal.Parse(StripZeros(code[2..]))
  }

  /** Leading '0's put in front of a decimal text come off again. */
  lemma {:induction false} StripPadding(k: nat, s: string)
    requires |s| >= 1 && (s[0] == '0' ==> |s| == 1)
    ensures StripZeros(Text.Repeat('0', k) + s) == s
  {
    if k > 0 {
      StripPadding(k - 1, s);
      assert (Text.Repeat('0', k) + s)[1..] == Text.Repeat('0', k - 1) + s;
    }
  }

  /** Reading back the counter of a code gives the counter it was made from. */
  lemma CounterOfCode(counter: int)
    ensures CounterOf(WorkOrderCode(counter)) == Some(counter)
  {
    var digits := Decimal.Show(counter);
    var padded := Text.PadStart(digits, 5, '0');
    assert StripZeros(padded) == digits by {
      if |digits| >= 5 {
        assert padded == Text.Repeat('0', 0) + digits;
        StripPadding(0, digits);
      } else {
        StripPadding(5 - |digits|, digits);
      }
    }
    assert WorkOrderCode(counter)[2..] == padded;
    Decimal.ParseShow(counter);
  }

  /** Distinct counters give distinct codes. */
  lemma CodeInjective(a: int, b: int)
    requires WorkOrderCode(a) == WorkOrderCode(b)
    ensures a == b
  {
    CounterOfCode(a);
    CounterOfCode(b);
  }

  /** Different counters give different codes. */
  lemma CodesDiffer(a: int, b: int)
    requires a != b
    ensures WorkOrderCode(a) != WorkOrderCode(b)
  {
    CounterOfCode(a);
    CounterOfCode(b);
  }

  /** The first code is "WO00001". */
  lemma FirstCode()
    ensures WorkOrderCode(1) == "WO00001"
  {
    assert Decimal.Show(1) == "1";
    assert Text.PadStart("1", 5, '0') == "0000" + "1";
  }

  /** The draft a form hands to `addWorkOrder`. */
  datatype Draft = Draft(groupId: Value, deviceId: Value, serviceId: Value, details: Props)

  /** The clock readings the action takes: `Date.now()` and `new Date().toISOString()`. */
  datatype Clock = Clock(ms: int, iso: string)

  /** The name of the first device with the given id, if any. */
  function DeviceName(devices: seq<Device>, id: Value): (r: string)
    ensures (forall i :: 0 <= i < |devices| ==> Num(devices[i].id) != id) ==> r == "Unknown Device"
    ensures forall i :: (0 <= i < |devices| && Num(devices[i].id) == id
      && (forall j :: 0 <= j < i ==> Num(devices[j].id) != id)) ==> r == devices[i].name
  {
    match FirstIndex(devices, (d: Device) => Num(d.id) == id)
    case Some(i) => devices[i].name
    case None => "Unknown Device"
  }

  /** The name of the first service with the given id, if any. */
  function ServiceName(services: seq<Service>, id: Value): (r: string)
    ensures (forall i :: 0 <= i < |services| ==> Num(services[i].id) != id) ==> r == "Unknown Service"
    ensures forall i :: (0 <= i < |services| && Num(services[i].id) == id
      && (forall j :: 0 <= j < i ==> Num(services[j].id) != id)) ==> r == services[i].name
  {
    match FirstIndex(services, (s: Service) => Num(s.id) == id)
    case Some(i) => services[i].name
    case None => "Unknown Service"
  }

  /**
   * The order `addWorkOrder` builds: the draft's fields, numbered from the
   * counter, its group defaulted to the current group and then to 1, the
   * display names of the draft's device and service, and the clock's time.
   */
  function NewOrder(st: State, draft: Draft, clock: Clock): (w: WorkOrderEntry)
    ensures w.code == WorkOrderCode(st.workOrderCounter + 1)
    ensures w.id == clock.ms
    ensures w.createdAt == clock.iso && w.updatedAt == Null
    ensures Truthy(draft.groupId) ==> w.groupId == draft.groupId
    ensures !Truthy(draft.groupId) && st.currentGroup.Some? ==> w.groupId == Num(st.currentGroup.value.id)
    ensures !Truthy(draft.groupId) && st.currentGroup.None? ==> w.groupId == Num(1)
    ensures w.deviceId == draft.deviceId && w.serviceId == draft.serviceId
    ensures w.deviceName == DeviceName(st.devices, draft.deviceId)
    ensures w.serviceName == ServiceName(st.services, draft.serviceId)
    ensures w.details == draft.details
  {
    var groupId := Or(draft.groupId, if st.currentGroup.Some? then Num(st.currentGroup.value.id) else Num(1));
    WorkOrderEntry(
      clock.ms,
      WorkOrderCode(st.workOrderCounter + 1),
      groupId,
      draft.deviceId,
      draft.serviceId,
      DeviceName(st.devices, draft.deviceId),
      ServiceName(st.services, draft.serviceId),
      clock.iso,
      Null,
      draft.details)
  }

  /**
   * `addWorkOrder`: appends the order built from the draft and advances the
   * counter by one; nothing else changes.
   */
  function AddWorkOrder(st: State, draft: Draft, clock: Clock): (r: State)
    ensures r.workOrderCounter == st.workOrderCounter + 1
    ensures OnlyOrdersChanged(st, r)
    ensures |r.workOrders| == |st.workOrders| + 1
    ensures r.workOrders[..|st.workOrders|] == st.workOrders
    ensures r.workOrders[|st.workOrders|] == NewOrder(st, draft, clock)
  {
    SetWorkOrderCounter(AddWorkOrderEntry(st, NewOrder(st, draft, clock)), st.workOrderCounter + 1)
  }

  /** Everything but the work orders and their counter is as it was. */
  predicate OnlyOrdersChanged(st: State, r: State)
  {
    && r.devices == st.devices && r.services == st.services && r.parts == st.parts
    && r.serviceParts == st.serviceParts && r.groups == st.groups && r.currentGroup == st.currentGroup
    && r.user == st.user && r.isAuthenticated == st.isAuthenticated
    && r.catalogPricing == st.catalogPricing && r.inventory == st.inventory
  }

  /** Successive `addWorkOrder` calls, one draft and one clock reading each. */
  function AddWorkOrders(st: State, drafts: seq<Draft>, clocks: seq<Clock>): (r: State)
    requires |clocks| == |drafts|
    ensures r.workOrderCounter == st.workOrderCounter + |drafts|
    ensures |r.workOrders| == |st.workOrders| + |drafts|
    decreases |drafts|
  {
    if |drafts| == 0 then st
    else AddWorkOrders(AddWorkOrder(st, drafts[0], clocks[0]), drafts[1..], clocks[1..])
  }

  /** The entries from position `n` on carry codes that read back as counters `c + 1`, `c + 2`, ... */
  predicate NumberedFrom(ws: seq<WorkOrderEntry>, n: nat, c: int)
  {
    forall i :: n <= i < |ws| ==> CounterOf(ws[i].code) == Some(c + (i - n) + 1)
  }

  /** `next` is `st` with one order appended whose code reads back as the advanced counter. */
  predicate AppendsNumbered(st: State, next: State)
  {
    && |next.workOrders| == |st.workOrders| + 1
    && next.workOrders[..|st.workOrders|] == st.workOrders
    && next.workOrderCounter == st.workOrderCounter + 1
    && CounterOf(next.workOrders[|st.workOrders|].code) == Some(st.workOrderCounter + 1)
  }

  /** Appending one order that carries the code of the advanced counter numbers it. */
  lemma AppendedNumbered(st: State, next: State)
    requires |next.workOrders| == |st.workOrders| + 1
    requires next.workOrders[..|st.workOrders|] == st.workOrders
    requires next.workOrderCounter == st.workOrderCounter + 1
    requires next.workOrders[|st.workOrders|].code == WorkOrderCode(st.workOrderCounter + 1)
    ensures AppendsNumbered(st, next)
  {
    CounterOfCode(st.workOrderCounter + 1);
  }

  /**
   * Numbering from the end of `next`'s orders on, after `next` appended one
   * numbered order to `st`, is numbering from the end of `st`'s orders on;
   * `st`'s orders stay where they were.
   */
  lemma NumberedExtend(st: State, next: State, ws: seq<WorkOrderEntry>)
    requires AppendsNumbered(st, next)
    requires |ws| >= |next.workOrders| && ws[..|next.workOrders|] == next.workOrders
    requires NumberedFrom(ws, |next.workOrders|, next.workOrderCounter)
    ensures ws[..|st.workOrders|] == st.workOrders
    ensures NumberedFrom(ws, |st.workOrders|, st.workOrderCounter)
  {
    var n := |st.workOrders|;
    assert ws[n] == next.workOrders[n];
    assert ws[..n] == ws[..n + 1][..n];
  }

  /**
   * Successive calls keep the orders already listed and number the new ones
   * from the counter on, one apart.
   */
  lemma {:induction false} AddWorkOrdersNumbering(st: State, drafts: seq<Draft>, clocks: seq<Clock>)
    requires |clocks| == |drafts|
    ensures AddWorkOrders(st, drafts, clocks).workOrders[..|st.workOrders|] == st.workOrders
    ensures NumberedFrom(AddWorkOrders(st, drafts, clocks).workOrders, |st.workOrders|, st.workOrderCounter)
    decreases |drafts|
  {
    if |drafts| > 0 {
      var next := AddWorkOrder(st, drafts[0], clocks[0]);
      var ws := AddWorkOrders(next, drafts[1..], clocks[1..]).workOrders;
      AddWorkOrdersNumbering(next, drafts[1..], clocks[1..]);
      AppendedNumbered(st, next);
      assert AddWorkOrders(st, drafts, clocks).workOrders == ws;
      NumberedExtend(st, next, ws);
    } else {
      assert AddWorkOrders(st, drafts, clocks) == st;
    }
  }

  /** Entries numbered one apart carry pairwise distinct codes. */
  lemma NumberedDistinct(ws: seq<WorkOrderEntry>, n: nat, c: int)
    requires NumberedFrom(ws, n, c)
    ensures forall i, j :: n <= i < j < |ws| ==> ws[i].code != ws[j].code
  {
    forall i, j | n <= i < j < |ws|
      ensures ws[i].code != ws[j].code
    {
      assert CounterOf(ws[i].code) != CounterOf(ws[j].code);
    }
  }

  /** The orders that successive `addWorkOrder` calls create carry pairwise distinct codes. */
  lemma CodesAreDistinct(st: State, drafts: seq<Draft>, clocks: seq<Clock>)
    requires |clocks| == |drafts|
    ensures var ws := AddWorkOrders(st, drafts, clocks).workOrders;
      forall i, j :: |st.workOrders| <= i < j < |ws| ==> ws[i].code != ws[j].code
  {
    AddWorkOrdersNumbering(st, drafts, clocks);
    NumberedDistinct(AddWorkOrders(st, drafts, clocks).workOrders, |st.workOrders|, st.workOrderCounter);
  }
}
