/**
  The delete guard the commune, violant, agent and categorie controllers share:
  the referencing infraction is looked up first, but a missing row is reported
  before a conflict, and a row some infraction still points at is kept.
 */
module Guard {
  import opened Wrappers
  import opened Tables
  import opened Schema
  import Integrity

  /** `firstWhere(column, $id)`, `find($id)`, 404, then 409, then `delete()`. */
  function DestroyTarget<R>(db: Db, fk: Fk, id: int): (r: Step<Outcome<R>>)
    ensures r.outcome.NotFound? || r.outcome.Conflict? || r.outcome.Deleted?
    ensures r.outcome.NotFound? <==> id !in db.Targets(fk)
    ensures id in db.Targets(fk) ==> (r.outcome.Conflict? <==> exists k :: k in db.Referencing(fk, id))
    ensures r.outcome.Conflict? ==>
      && r.outcome.refId in db.infractions.rows
      && db.infractions.rows[r.outcome.refId].Ref(fk) == id
      && forall k :: k in db.Referencing(fk, id) ==> r.outcome.refId <= k
    ensures !r.outcome.Deleted? ==> r.db == db
    ensures r.outcome.Deleted? ==> r.db == db.Drop(fk, id) && forall k :: k !in db.Referencing(fk, id)
    ensures db.Valid() ==> r.db.Valid()
  {
    var infraction := First(db.Referencing(fk, id));
    if id !in db.Targets(fk) then
      Step(NotFound, db)
    else if infraction.Some? then
      Step(Conflict(infraction.value), db)
    else
      Integrity.RemoveTarget(db, fk, id);
      Step(Deleted, db.Drop(fk, id))
  }
}
