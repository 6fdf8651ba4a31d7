/**
 * The repair program endpoints: a program must name a stored workflow, and a
 * program that some work order uses cannot be deleted.
 */
module ProgramsController {
  import opened Wrappers
  import opened Tables
  import opened Database

  const WorkflowMissing := "The specified repair workflow does not exist."
  const ProgramInUse := "Cannot delete program because it is used by one or more work orders."

  /** Some stored work order runs under program `id`. */
  predicate UsedByWorkOrders(db: Db, id: int)
  {
    exists k :: k in db.workOrders && db.workOrders[k].repairProgramId == id
  }

  /** POST: the workflow must exist; then the program is inserted. */
  function PostProgram(db: Db, p: RepairProgram): (r: (Db, Reply<RepairProgram>))
    ensures p.repairWorkflowId !in db.workflows ==> r == (db, BadRequest(WorkflowMissing))
    ensures r.1.Created? || r.1.BadRequest? || r.1.ServerError?
    ensures r.1.Created? <==> p.repairWorkflowId in db.workflows && (p.id == 0 || p.id !in db.programs)
    ensures !r.1.Created? ==> r.0 == db
    ensures r.1.Created? ==>
      var k := r.1.value.id;
      && k !in db.programs
      && r.1.value == p.(id := k)
      && r.0 == db.(programs := db.programs[k := r.1.value])
  {
    if p.repairWorkflowId !in db.workflows then (db, BadRequest(WorkflowMissing))
    else
      match AssignKey(db.programs, p.id)
      case None => (db, ServerError)
      case Some(k) =>
        var row := p.(id := k);
        (db.(programs := db.programs[k := row]), Created(row))
  }

  /** PUT {id}: ids must agree, the workflow exist, and the program be stored. */
  function PutProgram(db: Db, id: int, p: RepairProgram): (r: (Db, Reply<RepairProgram>))
    ensures id != p.id ==> r == (db, BadRequest(""))
    ensures id == p.id && p.repairWorkflowId !in db.workflows ==> r == (db, BadRequest(WorkflowMissing))
    ensures id == p.id && p.repairWorkflowId in db.workflows && id !in db.programs ==> r == (db, NotFound)
    ensures r.1.NoContent? <==> id == p.id && p.repairWorkflowId in db.workflows && id in db.programs
    ensures r.1.NoContent? ==> r.0 == db.(programs := db.programs[id := p])
  {
    if id != p.id then (db, BadRequest(""))
    else if p.repairWorkflowId !in db.workflows then (db, BadRequest(WorkflowMissing))
    else if id !in db.programs then (db, NotFound)
    else (db.(programs := db.programs[id := p]), NoContent)
  }

  /** DELETE {id}: refused while a work order uses the program. */
  function DeleteProgram(db: Db, id: int): (r: (Db, Reply<RepairProgram>))
    ensures id !in db.programs ==> r == (db, NotFound)
    ensures id in db.programs && UsedByWorkOrders(db, id) ==> r == (db, BadRequest(ProgramInUse))
    ensures r.1.NoContent? <==> id in db.programs && !UsedByWorkOrders(db, id)
    ensures r.1.NoContent? ==>
      && r.0.programs.Keys == db.programs.Keys - {id}
      && (forall k :: k in r.0.programs ==> r.0.programs[k] == db.programs[k])
      && r.0.(programs := db.programs) == db
  {
    if id !in db.programs then (db, NotFound)
    else if UsedByWorkOrders(db, id) then (db, BadRequest(ProgramInUse))
    else (db.(programs := db.programs - {id}), NoContent)
  }

  /** Every program write keeps work orders and programs linked to stored rows. */
  lemma {:induction false} ProgramWritesKeepLinks(db: Db, id: int, p: RepairProgram)
    requires LinksHold(db)
    ensures LinksHold(PostProgram(db, p).0)
    ensures LinksHold(PutProgram(db, id, p).0)
    ensures LinksHold(DeleteProgram(db, id).0)
  {
    var (after, reply) := DeleteProgram(db, id);
    if reply.NoContent? {
      forall k | k in after.workOrders
        ensures after.workOrders[k].repairProgramId in after.programs
      {
        assert db.workOrders[k].repairProgramId != id;
      }
    }
  }

  /** A program that a work order uses survives a delete request. */
  lemma UsedProgramSurvives(db: Db, id: int, k: int)
    requires k in db.workOrders && db.workOrders[k].repairProgramId == id
    ensures DeleteProgram(db, id).0 == db
    ensures id in db.programs ==> DeleteProgram(db, id).1 == BadRequest(ProgramInUse)
  {
  }
}
