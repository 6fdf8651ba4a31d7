/**
 * The work order endpoints as transitions of the store: create, whole-row
 * update, the status patch and delete. `now` stands for `DateTime.UtcNow`.
 */
module WorkOrdersController {
  import opened Wrappers
  import opened Tables
  import opened WorkOrderModel
  import opened Database

  /** The body of a status patch. */
  datatype StatusUpdate = StatusUpdate(status: string, notes: string)

  /**
   * POST: the creation time is stamped and the order stored otherwise as
   * sent. No code is generated and no reference is checked here.
   */
  function PostWorkOrder(db: Db, w: WorkOrder, now: int): (r: (Db, Reply<WorkOrder>))
    ensures r.1.Created? || r.1.ServerError?
    ensures r.1.ServerError? <==> w.id != 0 && w.id in db.workOrders
    ensures r.1.ServerError? ==> r.0 == db
    ensures r.1.Created? ==>
      var k := r.1.value.id;
      && k !in db.workOrders
      && (w.id != 0 ==> k == w.id)
      && r.1.value == w.(id := k, createdAt := now)
      && r.0 == db.(workOrders := db.workOrders[k := r.1.value])
  {
    match AssignKey(db.workOrders, w.id)
    case None => (db, ServerError)
    case Some(k) =>
      var row := w.(id := k, createdAt := now);
      (db.(workOrders := db.workOrders[k := row]), Created(row))
  }

  /** PUT {id}: the stored row is replaced by the body, stamped with the update time. */
  function PutWorkOrder(db: Db, id: int, w: WorkOrder, now: int): (r: (Db, Reply<WorkOrder>))
    ensures id != w.id ==> r == (db, BadRequest(""))
    ensures id == w.id && id !in db.workOrders ==> r == (db, NotFound)
    ensures r.1.NoContent? <==> id == w.id && id in db.workOrders
    ensures r.1.NoContent? ==>
      && r.0.workOrders.Keys == db.workOrders.Keys
      && r.0.workOrders[id] == w.(updatedAt := Some(now))
      && (forall k :: k in db.workOrders && k != id ==> r.0.workOrders[k] == db.workOrders[k])
      && r.0.(workOrders := db.workOrders) == db
  {
    if id != w.id then (db, BadRequest(""))
    else if id !in db.workOrders then (db, NotFound)
    else (db.(workOrders := db.workOrders[id := w.(updatedAt := Some(now))]), NoContent)
  }

  /**
   * PATCH {id}/status: the status is set to the requested text, unchecked,
   * and the update time stamped. The notes are dropped.
   */
  function UpdateWorkOrderStatus(db: Db, id: int, u: StatusUpdate, now: int): (r: (Db, Reply<WorkOrder>))
    ensures id !in db.workOrders ==> r == (db, NotFound)
    ensures id in db.workOrders ==> r.1.NoContent?
    ensures r.0.(workOrders := db.workOrders) == db
    ensures r.0.workOrders.Keys == db.workOrders.Keys
    ensures forall k :: k in db.workOrders && k != id ==> r.0.workOrders[k] == db.workOrders[k]
    ensures id in db.workOrders ==>
      var before, after := db.workOrders[id], r.0.workOrders[id];
      && after.currentStatus == u.status
      && after.updatedAt == Some(now)
      && after.(currentStatus := before.currentStatus, updatedAt := before.updatedAt) == before
  {
    if id !in db.workOrders then (db, NotFound)
    else
      var w := db.workOrders[id];
      (db.(workOrders := db.workOrders[id := w.(currentStatus := u.status, updatedAt := Some(now))]), NoContent)
  }

  /** DELETE {id}: remove exactly that order. */
  function DeleteWorkOrder(db: Db, id: int): (r: (Db, Reply<WorkOrder>))
    ensures id !in db.workOrders ==> r == (db, NotFound)
    ensures id in db.workOrders ==> r.1.NoContent?
    ensures r.0.(workOrders := db.workOrders) == db
    ensures r.0.workOrders.Keys == db.workOrders.Keys - {id}
    ensures forall k :: k in r.0.workOrders ==> r.0.workOrders[k] == db.workOrders[k]
  {
    if id !in db.workOrders then (db, NotFound)
    else (db.(workOrders := db.workOrders - {id}), NoContent)
  }

  /** The notes of a status patch have no effect on the outcome. */
  lemma NotesAreNeverStored(db: Db, id: int, status: string, n1: string, n2: string, now: int)
    ensures UpdateWorkOrderStatus(db, id, StatusUpdate(status, n1), now)
         == UpdateWorkOrderStatus(db, id, StatusUpdate(status, n2), now)
  {
  }

  /** Repeating a status patch at the same time changes nothing further. */
  lemma StatusPatchIdempotent(db: Db, id: int, u: StatusUpdate, now: int)
    ensures var once := UpdateWorkOrderStatus(db, id, u, now);
      UpdateWorkOrderStatus(once.0, id, u, now).0 == once.0
  {
  }

  /**
   * An update replaces the row wholesale: what is stored afterwards does not
   * depend on what was stored before, so the creation time comes from the body.
   */
  lemma PutReplacesWholesale(db1: Db, db2: Db, id: int, w: WorkOrder, now: int)
    requires id == w.id && id in db1.workOrders && id in db2.workOrders
    ensures PutWorkOrder(db1, id, w, now).0.workOrders[id] == PutWorkOrder(db2, id, w, now).0.workOrders[id]
    ensures PutWorkOrder(db1, id, w, now).0.workOrders[id].createdAt == w.createdAt
  {
  }

  /** Deleting an order just created restores the store. */
  lemma PostThenDeleteRestores(db: Db, w: WorkOrder, now: int)
    requires PostWorkOrder(db, w, now).1.Created?
    ensures var (db1, reply) := PostWorkOrder(db, w, now);
      DeleteWorkOrder(db1, reply.value.id) == (db, NoContent)
  {
    var (db1, reply) := PostWorkOrder(db, w, now);
    var k := reply.value.id;
    assert db1.workOrders - {k} == db.workOrders;
  }

  /**
   * An order created with its defaults starts "Pending"; a later status patch
   * sets the status and the update time and keeps the creation time.
   */
  lemma StatusOfNewOrder(db: Db, now: int, later: int, status: string)
    requires PostWorkOrder(db, NewWorkOrder(now), now).1.Created?
    ensures var (db1, reply) := PostWorkOrder(db, NewWorkOrder(now), now);
      var k := reply.value.id;
      var db2 := UpdateWorkOrderStatus(db1, k, StatusUpdate(status, ""), later).0;
      && db1.workOrders[k].currentStatus == "Pending"
      && db2.workOrders[k].currentStatus == status
      && db2.workOrders[k].updatedAt == Some(later)
      && db2.workOrders[k].createdAt == now
  {
  }

  /**
   * The status patch and delete never break the links the program and
   * workflow endpoints guard: neither changes an order's program.
   */
  lemma {:induction false} PatchAndDeleteKeepLinks(db: Db, id: int, u: StatusUpdate, now: int)
    requires LinksHold(db)
    ensures LinksHold(UpdateWorkOrderStatus(db, id, u, now).0)
    ensures LinksHold(DeleteWorkOrder(db, id).0)
  {
    var patched := UpdateWorkOrderStatus(db, id, u, now).0;
    forall k | k in patched.workOrders
      ensures patched.workOrders[k].repairProgramId in patched.programs
    {
      assert patched.workOrders[k].repairProgramId == db.workOrders[k].repairProgramId;
    }
  }
}
