/**
 * The repair workflow endpoints: creation is unchecked, and a workflow that
 * some program is bound to cannot be deleted.
 */
module WorkflowsController {
  import opened Wrappers
  import opened Tables
  import opened Database

  const WorkflowInUse := "Cannot delete workflow because it is used by one or more repair programs."

  /** Some stored program is bound to workflow `id`. */
  predicate UsedByPrograms(db: Db, id: int)
  {
    exists k :: k in db.programs && db.programs[k].repairWorkflowId == id
  }

  /** POST: the workflow is inserted as sent. */
  function PostWorkflow(db: Db, w: RepairWorkflow): (r: (Db, Reply<RepairWorkflow>))
    ensures r.1.Created? || r.1.ServerError?
    ensures r.1.ServerError? <==> w.id != 0 && w.id in db.workflows
    ensures r.1.ServerError? ==> r.0 == db
    ensures r.1.Created? ==>
      var k := r.1.value.id;
      && k !in db.workflows
      && r.1.value == w.(id := k)
      && r.0 == db.(workflows := db.workflows[k := r.1.value])
  {
    match AssignKey(db.workflows, w.id)
    case None => (db, ServerError)
    case Some(k) =>
      var row := w.(id := k);
      (db.(workflows := db.workflows[k := row]), Created(row))
  }

  /** PUT {id}: ids must agree and the workflow be stored. */
  function PutWorkflow(db: Db, id: int, w: RepairWorkflow): (r: (Db, Reply<RepairWorkflow>))
    ensures id != w.id ==> r == (db, BadRequest(""))
    ensures id == w.id && id !in db.workflows ==> r == (db, NotFound)
    ensures r.1.NoContent? <==> id == w.id && id in db.workflows
    ensures r.1.NoContent? ==> r.0 == db.(workflows := db.workflows[id := w])
  {
    if id != w.id then (db, BadRequest(""))
    else if id !in db.workflows then (db, NotFound)
    else (db.(workflows := db.workflows[id := w]), NoContent)
  }

  /** DELETE {id}: refused while a program is bound to the workflow. */
  function DeleteWorkflow(db: Db, id: int): (r: (Db, Reply<RepairWorkflow>))
    ensures id !in db.workflows ==> r == (db, NotFound)
    ensures id in db.workflows && UsedByPrograms(db, id) ==> r == (db, BadRequest(WorkflowInUse))
    ensures r.1.NoContent? <==> id in db.workflows && !UsedByPrograms(db, id)
    ensures r.1.NoContent? ==>
      && r.0.workflows.Keys == db.workflows.Keys - {id}
      && (forall k :: k in r.0.workflows ==> r.0.workflows[k] == db.workflows[k])
      && r.0.(workflows := db.workflows) == db
  {
    if id !in db.workflows then (db, NotFound)
    else if UsedByPrograms(db, id) then (db, BadRequest(WorkflowInUse))
    else (db.(workflows := db.workflows - {id}), NoContent)
  }

  /** Every workflow write keeps programs bound to stored workflows. */
  lemma {:induction false} WorkflowWritesKeepLinks(db: Db, id: int, w: RepairWorkflow)
    requires LinksHold(db)
    ensures LinksHold(PostWorkflow(db, w).0)
    ensures LinksHold(PutWorkflow(db, id, w).0)
    ensures LinksHold(DeleteWorkflow(db, id).0)
  {
    var (after, reply) := DeleteWorkflow(db, id);
    if reply.NoContent? {
      forall k | k in after.programs
        ensures after.programs[k].repairWorkflowId in after.workflows
      {
        assert db.programs[k].repairWorkflowId != id;
      }
    }
  }

  /** A workflow that a program is bound to survives a delete request. */
  lemma UsedWorkflowSurvives(db: Db, id: int, k: int)
    requires k in db.programs && db.programs[k].repairWorkflowId == id
    ensures DeleteWorkflow(db, id).0 == db
    ensures id in db.workflows ==> DeleteWorkflow(db, id).1 == BadRequest(WorkflowInUse)
  {
  }
}
