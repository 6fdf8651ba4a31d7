/**
 * The inventory endpoints: create and update check the catalog item first
 * and the group second, stamp the update time, and the group listing
 * selects a group's stock.
 */
module InventoryController {
  import opened Wrappers
  import opened Tables
  import opened Database

  const PartMissing := "The specified part does not exist."
  const DeviceMissing := "The specified device does not exist."
  const BadItemType := "Invalid catalog item type. Must be 'Part' or 'Device'."
  const GroupMissing := "The specified group does not exist."

  /** The catalog item the row names exists; the type must be exactly "Part" or "Device". */
  predicate NamesStoredItem(db: Db, item: InventoryItem)
  {
    || (item.catalogItemType == "Part" && item.catalogItemId in db.parts)
    || (item.catalogItemType == "Device" && item.catalogItemId in db.devices)
  }

  /** The catalog-item check: the message of the failed test, if any. */
  function CatalogItemError(db: Db, item: InventoryItem): (r: Option<string>)
    ensures r.None? <==> NamesStoredItem(db, item)
    ensures r == Some(BadItemType) <==> item.catalogItemType != "Part" && item.catalogItemType != "Device"
  {
    if item.catalogItemType == "Part" then
      if item.catalogItemId !in db.parts then Some(PartMissing) else None
    else if item.catalogItemType == "Device" then
      if item.catalogItemId !in db.devices then Some(DeviceMissing) else None
    else Some(BadItemType)
  }

  /** Both checks of create and update, the catalog item first. */
  function ValidationError(db: Db, item: InventoryItem): (r: Option<string>)
    ensures r.None? <==> NamesStoredItem(db, item) && item.groupId in db.groups
    ensures !NamesStoredItem(db, item) ==> r == CatalogItemError(db, item)
    ensures NamesStoredItem(db, item) && item.groupId !in db.groups ==> r == Some(GroupMissing)
  {
    match CatalogItemError(db, item)
    case Some(message) => Some(message)
    case None => if item.groupId !in db.groups then Some(GroupMissing) else None
  }

  /** POST: validate, stamp the update time, insert. */
  function PostInventoryItem(db: Db, item: InventoryItem, now: int): (r: (Db, Reply<InventoryItem>))
    ensures r.1.BadRequest? <==> ValidationError(db, item).Some?
    ensures r.1.BadRequest? ==> r.1.message == ValidationError(db, item).value
    ensures r.1.Created? || r.1.BadRequest? || r.1.ServerError?
    ensures !r.1.Created? ==> r.0 == db
    ensures r.1.Created? ==>
      var k := r.1.value.id;
      && k !in db.inventory
      && r.1.value == item.(id := k, lastUpdated := now)
      && r.0 == db.(inventory := db.inventory[k := r.1.value])
  {
    match ValidationError(db, item)
    case Some(message) => (db, BadRequest(message))
    case None =>
      match AssignKey(db.inventory, item.id)
      case None => (db, ServerError)
      case Some(k) =>
        var row := item.(id := k, lastUpdated := now);
        (db.(inventory := db.inventory[k := row]), Created(row))
  }

  /** PUT {id}: the id check, then validation, then the row must be stored. */
  function PutInventoryItem(db: Db, id: int, item: InventoryItem, now: int): (r: (Db, Reply<InventoryItem>))
    ensures id != item.id ==> r == (db, BadRequest(""))
    ensures id == item.id && ValidationError(db, item).Some? ==> r == (db, BadRequest(ValidationError(db, item).value))
    ensures id == item.id && ValidationError(db, item).None? && id !in db.inventory ==> r == (db, NotFound)
    ensures r.1.NoContent? <==> id == item.id && ValidationError(db, item).None? && id in db.inventory
    ensures r.1.NoContent? ==> r.0 == db.(inventory := db.inventory[id := item.(lastUpdated := now)])
  {
    if id != item.id then (db, BadRequest(""))
    else match ValidationError(db, item)
      case Some(message) => (db, BadRequest(message))
      case None =>
        if id !in db.inventory then (db, NotFound)
        else (db.(inventory := db.inventory[id := item.(lastUpdated := now)]), NoContent)
  }

  /** DELETE {id}: remove exactly that row. */
  function DeleteInventoryItem(db: Db, id: int): (r: (Db, Reply<InventoryItem>))
    ensures id !in db.inventory ==> r == (db, NotFound)
    ensures id in db.inventory ==> r.1.NoContent?
    ensures r.0.(inventory := db.inventory) == db
    ensures r.0.inventory.Keys == db.inventory.Keys - {id}
    ensures forall k :: k in r.0.inventory ==> r.0.inventory[k] == db.inventory[k]
  {
    if id !in db.inventory then (db, NotFound)
    else (db.(inventory := db.inventory - {id}), NoContent)
  }

  /** GET group/{groupId}: the group's rows, each once, in key order. */
  function GetInventoryItemsByGroup(db: Db, groupId: int): (r: seq<InventoryItem>)
    ensures forall x :: x in r <==> x in db.inventory.Values && x.groupId == groupId
    ensures |r| <= |db.inventory|
    ensures FilteredFrom(r, Rows(db.inventory), (x: InventoryItem) => x.groupId == groupId)
  {
    FilterIsFilteredFrom(Rows(db.inventory), (x: InventoryItem) => x.groupId == groupId);
    Filter(Rows(db.inventory), (x: InventoryItem) => x.groupId == groupId)
  }

  /** The group is looked at only once the catalog item has passed. */
  lemma GroupCheckedAfterItem(db: Db, item: InventoryItem)
    requires !NamesStoredItem(db, item)
    ensures ValidationError(db, item) != Some(GroupMissing)
  {
  }

  /** A type other than the two exact names is refused whatever else the row holds. */
  lemma OnlyPartOrDevice(db: Db, item: InventoryItem, now: int)
    requires item.catalogItemType != "Part" && item.catalogItemType != "Device"
    ensures PostInventoryItem(db, item, now) == (db, BadRequest(BadItemType))
    ensures PutInventoryItem(db, item.id, item, now) == (db, BadRequest(BadItemType))
  {
  }

  /**
   * A created row joins its own group's listing and no other group's
   * listing changes.
   */
  lemma CreatedRowJoinsItsGroup(db: Db, item: InventoryItem, now: int, g: int)
    requires PostInventoryItem(db, item, now).1.Created?
    ensures var (after, reply) := PostInventoryItem(db, item, now);
      && reply.value in GetInventoryItemsByGroup(after, item.groupId)
      && (g != item.groupId ==>
            forall x :: x in GetInventoryItemsByGroup(after, g) <==> x in GetInventoryItemsByGroup(db, g))
  {
    var (after, reply) := PostInventoryItem(db, item, now);
    var k := reply.value.id;
    assert after.inventory == db.inventory[k := reply.value];
    assert reply.value in after.inventory.Values by {
      assert after.inventory[k] == reply.value;
    }
    if g != item.groupId {
      forall x
        ensures x in GetInventoryItemsByGroup(after, g) <==> x in GetInventoryItemsByGroup(db, g)
      {
        if x.groupId == g {
          FreshKeyOtherValues(db.inventory, k, reply.value, x);
        }
      }
    }
  }
}
