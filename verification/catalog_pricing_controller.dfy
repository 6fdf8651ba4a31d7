/**
 * The catalog pricing endpoints: the lookup of the price in effect for one
 * item, and create, update and delete with their validation. Each action
 * maps the store and a request to the new store and the reply.
 */
module PricingController {
  import opened Wrappers
  import opened Tables
  import opened PricingModel
  import opened Database

  function ToLowerAscii(c: char): char
  {
    if 'A' <= c <= 'Z' then (c as int + 32) as char else c
  }

  /** Ordinal comparison that ignores the case of ASCII letters. */
  predicate EqualsIgnoreCase(a: string, b: string)
  {
    |a| == |b| && forall i :: 0 <= i < |a| ==> ToLowerAscii(a[i]) == ToLowerAscii(b[i])
  }

  /** `Enum.TryParse<CatalogItemType>(name, ignoreCase: true)` on member names. */
  function ParseItemType(name: string): (r: Option<ItemType>)
    ensures r == Some(Part) <==> EqualsIgnoreCase(name, "Part")
    ensures r == Some(Device) <==> EqualsIgnoreCase(name, "Device")
    ensures r == Some(Service) <==> EqualsIgnoreCase(name, "Service")
    ensures r.Some? ==> !r.value.Unnamed?
  {
    if EqualsIgnoreCase(name, "Part") then Some(Part)
    else if EqualsIgnoreCase(name, "Device") then Some(Device)
    else if EqualsIgnoreCase(name, "Service") then Some(Service)
    else None
  }

  /** The type-specific item id a row carries for item type `t`. */
  function ItemId(p: CatalogPricing, t: ItemType): Option<int>
  {
    match t
    case Part => p.partId
    case Device => p.deviceId
    case Service => p.serviceId
    case Unnamed(_) => None
  }

  /** The row's validity window contains `now`; an absent expiration date never ends it. */
  predicate InEffect(p: CatalogPricing, now: int)
  {
    p.effectiveDate <= now && (p.expirationDate.None? || p.expirationDate.value >= now)
  }

  /** The row prices item `itemId` of type `t` and is in effect at `now`. */
  predicate Applies(p: CatalogPricing, t: ItemType, itemId: int, now: int)
  {
    p.itemType == t && ItemId(p, t) == Some(itemId) && InEffect(p, now)
  }

  /**
   * `OrderByDescending(EffectiveDate).First()`: a row with the latest
   * effective date. Among rows that share it the model takes the first in key
   * order; SQL promises no particular one.
   */
  function Latest(rows: seq<CatalogPricing>): (r: CatalogPricing)
    requires |rows| > 0
    ensures r in rows
    ensures forall q :: q in rows ==> q.effectiveDate <= r.effectiveDate
  {
    if |rows| == 1 then rows[0]
    else
      var rest := Latest(rows[1..]);
      assert forall q :: q in rows ==> q == rows[0] || q in rows[1..];
      if rows[0].effectiveDate >= rest.effectiveDate then rows[0] else rest
  }

  /**
   * GET item/{itemType}/{itemId}: among the rows for that item in effect at
   * `now`, the one that took effect last.
   */
  function GetPricingForItem(db: Db, itemType: string, itemId: int, now: int): (r: Reply<CatalogPricing>)
    ensures r.Ok? || r.NotFound? || r.BadRequest?
    ensures r.BadRequest? <==> ParseItemType(itemType).None?
    ensures r.Ok? ==> r.value in db.pricing.Values
    ensures r.Ok? ==> Applies(r.value, ParseItemType(itemType).value, itemId, now)
    ensures r.Ok? ==> forall q :: q in db.pricing.Values && Applies(q, ParseItemType(itemType).value, itemId, now)
                          ==> q.effectiveDate <= r.value.effectiveDate
    ensures r.NotFound? <==>
      ParseItemType(itemType).Some? &&
      forall q :: q in db.pricing.Values ==> !Applies(q, ParseItemType(itemType).value, itemId, now)
  {
    match ParseItemType(itemType)
    case None => BadRequest("Invalid item type. Must be 'Part', 'Device', or 'Service'.")
    case Some(t) =>
      var candidates := Filter(Rows(db.pricing), q => Applies(q, t, itemId, now));
      if |candidates| == 0 then
        assert forall q :: q in db.pricing.Values ==> !Applies(q, t, itemId, now) by {
          forall q | q in db.pricing.Values
            ensures !Applies(q, t, itemId, now)
          {
            assert q in Rows(db.pricing);
          }
        }
        NotFound
      else
        var best := Latest(candidates);
        assert forall q :: q in db.pricing.Values && Applies(q, t, itemId, now) ==> q in candidates;
        Ok(best)
  }

  /**
   * The referenced-item check of create and update: the message of the first
   * failed check, or `None` when the row names an existing item of its type.
   */
  function ItemReferenceError(db: Db, p: CatalogPricing): (r: Option<string>)
    ensures r.None? <==>
      || (p.itemType == Part && p.partId.Some? && p.partId.value in db.parts)
      || (p.itemType == Device && p.deviceId.Some? && p.deviceId.value in db.devices)
      || (p.itemType == Service && p.serviceId.Some? && p.serviceId.value in db.services)
  {
    match p.itemType
    case Part =>
      if p.partId.None? then Some("PartId is required for Part item type.")
      else if p.partId.value !in db.parts then Some("The specified part does not exist.")
      else None
    case Device =>
      if p.deviceId.None? then Some("DeviceId is required for Device item type.")
      else if p.deviceId.value !in db.devices then Some("The specified device does not exist.")
      else None
    case Service =>
      if p.serviceId.None? then Some("ServiceId is required for Service item type.")
      else if p.serviceId.value !in db.services then Some("The specified service does not exist.")
      else None
    case Unnamed(_) => Some("Invalid item type. Must be Part, Device, or Service.")
  }

  /** POST: validate the referenced item, then insert the row. */
  function PostCatalogPricing(db: Db, p: CatalogPricing): (r: (Db, Reply<CatalogPricing>))
    ensures r.1.BadRequest? <==> ItemReferenceError(db, p).Some?
    ensures !r.1.Created? ==> r.0 == db
    ensures r.1.Created? || r.1.BadRequest? || r.1.ServerError?
    ensures r.1.Created? ==>
      var k := r.1.value.id;
      && k !in db.pricing
      && r.1.value == p.(id := k)
      && r.0 == db.(pricing := db.pricing[k := r.1.value])
  {
    match ItemReferenceError(db, p)
    case Some(message) => (db, BadRequest(message))
    case None =>
      match AssignKey(db.pricing, p.id)
      case None => (db, ServerError)
      case Some(k) =>
        var row := p.(id := k);
        (db.(pricing := db.pricing[k := row]), Created(row))
  }

  /** PUT {id}: the ids must agree and the referenced item exist; the stored row is replaced. */
  function PutCatalogPricing(db: Db, id: int, p: CatalogPricing): (r: (Db, Reply<CatalogPricing>))
    ensures id != p.id ==> r == (db, BadRequest(""))
    ensures id == p.id && ItemReferenceError(db, p).Some? ==> r == (db, BadRequest(ItemReferenceError(db, p).value))
    ensures id == p.id && ItemReferenceError(db, p).None? && id !in db.pricing ==> r == (db, NotFound)
    ensures r.1.NoContent? <==> id == p.id && ItemReferenceError(db, p).None? && id in db.pricing
    ensures r.1.NoContent? ==> r.0 == db.(pricing := db.pricing[id := p])
  {
    if id != p.id then (db, BadRequest(""))
    else match ItemReferenceError(db, p)
      case Some(message) => (db, BadRequest(message))
      case None =>
        if id !in db.pricing then (db, NotFound)
        else (db.(pricing := db.pricing[id := p]), NoContent)
  }

  /** DELETE {id}: remove exactly that row. */
  function DeleteCatalogPricing(db: Db, id: int): (r: (Db, Reply<CatalogPricing>))
    ensures id !in db.pricing ==> r == (db, NotFound)
    ensures id in db.pricing ==> r.1.NoContent?
    ensures id in db.pricing ==> r.0.(pricing := db.pricing) == db
    ensures r.0.pricing.Keys == db.pricing.Keys - {id}
    ensures forall k :: k in r.0.pricing ==> r.0.pricing[k] == db.pricing[k]
  {
    if id !in db.pricing then (db, NotFound)
    else (db.(pricing := db.pricing - {id}), NoContent)
  }

  /** The item-type name is matched without regard to case. */
  lemma ItemTypeIgnoresCase()
    ensures ParseItemType("pArT") == Some(Part)
    ensures ParseItemType("SERVICE") == Some(Service)
    ensures ParseItemType("Gadget").None?
  {
    assert EqualsIgnoreCase("pArT", "Part");
    assert EqualsIgnoreCase("SERVICE", "Service");
    assert ToLowerAscii("Gadget"[0]) != ToLowerAscii("Device"[0]);
  }

  /** A rejected create or update leaves the store exactly as it was. */
  lemma RejectedWritesChangeNothing(db: Db, id: int, p: CatalogPricing)
    requires ItemReferenceError(db, p).Some?
    ensures PostCatalogPricing(db, p).0 == db
    ensures PutCatalogPricing(db, id, p).0 == db
  {
  }
}
