/**
  `DecisionController`: the decision taken on an infraction. Create checks the
  date, the text and that the infraction exists; update writes the request
  without any check; delete always succeeds on an existing row.
 */
module DecisionController {
  import opened Wrappers
  import opened Text
  import opened Rules
  import opened Tables
  import opened Schema
  import Integrity

  /** The fields of a create or update request; `None` for a field not sent. */
  datatype DecisionInput = DecisionInput(date: Option<Day>, decisionPrise: Option<string>, infractionId: Option<int>)

  const DecisionFields: set<Field> := {Date, DecisionPrise, InfractionId}

  /** The create rule of field `f`. */
  predicate StoreRule(db: Db, input: DecisionInput, today: Day, f: Field) {
    match f
    case Date => RequiredNotAfter(input.date, today)
    case DecisionPrise => RequiredLength(input.decisionPrise, 5, 200)
    case InfractionId => RequiredExists(input.infractionId, db.infractions.rows.Keys)
    case _ => true
  }

  predicate StoreAccepts(db: Db, input: DecisionInput, today: Day) {
    StoreRule(db, input, today, Date) && StoreRule(db, input, today, DecisionPrise)
    && StoreRule(db, input, today, InfractionId)
  }

  /** Inserts `record` under the next auto-increment key. */
  function InsertRow(db: Db, record: Decision): (r: Step<Outcome<Decision>>)
    ensures r.outcome == Outcome.Created(db.decisions.next, record)
    ensures db.decisions.Valid() ==> db.decisions.next !in db.decisions.rows
    ensures r.db.decisions.rows == db.decisions.rows[db.decisions.next := record]
    ensures r.db == db.(decisions := r.db.decisions)
    ensures db.Valid() && record.infractionId in db.infractions.rows ==> r.db.Valid()
  {
    Integrity.InsertDecision(db, record);
    Step(Outcome.Created(db.decisions.next, record), db.(decisions := db.decisions.Insert(record)))
  }

  /** `store`: validate, then insert with the text trimmed. */
  function Store(db: Db, input: DecisionInput, today: Day): (r: Step<Outcome<Decision>>)
    ensures r.outcome.Created? || r.outcome.Invalid?
    ensures r.outcome.Invalid? ==> r.db == db && r.outcome.fields != {}
    ensures forall f :: f in r.outcome.Rejected() <==> f in DecisionFields && !StoreRule(db, input, today, f)
    ensures r.outcome.Created? ==>
      && input.date.Some? && input.decisionPrise.Some? && input.infractionId.Some?
      && r.outcome.record == Decision(input.date.value, Trim(input.decisionPrise.value), input.infractionId.value)
      && r.outcome.record.date <= today
      && r.outcome.record.infractionId in db.infractions.rows
      && (db.decisions.Valid() ==> r.outcome.id !in db.decisions.rows)
      && r.db.decisions.rows == db.decisions.rows[r.outcome.id := r.outcome.record]
      && r.db == db.(decisions := r.db.decisions)
      && Show(r.db, r.outcome.id) == Found(r.outcome.id, r.outcome.record)
    ensures db.Valid() ==> r.db.Valid()
  {
    if StoreAccepts(db, input, today) then
      InsertRow(db, Decision(input.date.value, Trim(input.decisionPrise.value), input.infractionId.value))
    else
      Step(Invalid(Failing(DecisionFields, f => StoreRule(db, input, today, f))), db)
  }

  /** `show`. */
  function Show(db: Db, id: int): (r: Outcome<Decision>)
    ensures r.Found? || r.NotFound?
    ensures r.Found? <==> id in db.decisions.rows
    ensures r.Found? ==> r.id == id && r.record == db.decisions.rows[id]
  {
    Find(db.decisions, id)
  }

  /** `$decision->update($request->all())`: every sent fillable field is written as sent. */
  function Apply(prev: Decision, input: DecisionInput): Decision {
    Decision(input.date.GetOr(prev.date), input.decisionPrise.GetOr(prev.decisionPrise),
             input.infractionId.GetOr(prev.infractionId))
  }

  /**
    `update`: 404 for a missing row, otherwise the request is written without
    any check. The store stays valid only when the request leaves
    `infraction_id` out or names an existing infraction.
   */
  function Update(db: Db, id: int, input: DecisionInput): (r: Step<Outcome<Decision>>)
    ensures id !in db.decisions.rows ==> r == Step(NotFound, db)
    ensures id in db.decisions.rows ==>
      && r.outcome == Updated(id, Apply(db.decisions.rows[id], input))
      && r.db == db.(decisions := db.decisions.Put(id, r.outcome.record))
      && Show(r.db, id) == Found(id, r.outcome.record)
    ensures db.Valid() && (input.infractionId.None? || input.infractionId.value in db.infractions.rows) ==>
      r.db.Valid()
  {
    if id !in db.decisions.rows then
      Step(NotFound, db)
    else
      var record := Apply(db.decisions.rows[id], input);
      Integrity.PutDecision(db, id, record);
      Step(Updated(id, record), db.(decisions := db.decisions.Put(id, record)))
  }

  /** Two decision updates in turn, as one: a field the later one sends wins, otherwise the earlier one's. */
  function Merge(earlier: DecisionInput, later: DecisionInput): DecisionInput {
    DecisionInput(
      later.date.Or(earlier.date),
      later.decisionPrise.Or(earlier.decisionPrise),
      later.infractionId.Or(earlier.infractionId))
  }

  /** An update that sends none of the fields leaves the row as it was. */
  lemma ApplyNothing(prev: Decision)
    ensures Apply(prev, DecisionInput(None, None, None)) == prev
  {
  }

  /** Applying two updates in turn is applying their merge once. */
  lemma ApplyMerge(prev: Decision, earlier: DecisionInput, later: DecisionInput)
    ensures Apply(Apply(prev, earlier), later) == Apply(prev, Merge(earlier, later))
  {
  }

  /**
    The update breaks referential integrity: pointing a decision at an
    infraction that does not exist is accepted, and the store is no longer
    valid, although `store` refuses that `infraction_id`. This is the
    controller's behaviour alone: the decision table's foreign key would make
    the database refuse the write.
   */
  lemma UpdateBreaksIntegrity(db: Db, id: int, n: int, today: Day)
    requires db.Valid() && id in db.decisions.rows && n !in db.infractions.rows
    ensures var r := Update(db, id, DecisionInput(None, None, Some(n)));
      && r.outcome.Updated?
      && r.db.decisions.rows[id].infractionId == n
      && !r.db.Integrity()
    ensures InfractionId in Store(db, DecisionInput(None, None, Some(n)), today).outcome.Rejected()
  {
    var r := Update(db, id, DecisionInput(None, None, Some(n)));
    assert r.db.infractions == db.infractions;
  }

  /** A decision date after today is refused on create but accepted on update. */
  lemma UpdateAcceptsFutureDate(db: Db, id: int, today: Day)
    requires id in db.decisions.rows
    ensures var r := Update(db, id, DecisionInput(Some(today + 1), None, None));
      r.outcome.Updated? && r.db.decisions.rows[id].date == today + 1
    ensures Date in Store(db, DecisionInput(Some(today + 1), None, None), today).outcome.Rejected()
  {
  }

  /** `destroy`: 404 for a missing row; nothing refers to a decision, so no guard. */
  function Destroy(db: Db, id: int): (r: Step<Outcome<Decision>>)
    ensures r.outcome.NotFound? || r.outcome.Deleted?
    ensures r.outcome.NotFound? <==> id !in db.decisions.rows
    ensures r.outcome.NotFound? ==> r.db == db
    ensures r.outcome.Deleted? ==>
      && r.db == db.(decisions := db.decisions.Remove(id))
      && Show(r.db, id) == NotFound
    ensures db.Valid() ==> r.db.Valid()
  {
    if id !in db.decisions.rows then
      Step(NotFound, db)
    else
      Integrity.RemoveDecision(db, id);
      Step(Deleted, db.(decisions := db.decisions.Remove(id)))
  }
}
