/**
  `InfractionController`: create with every foreign key checked, partial update
  restricted to the nine fillable columns, and a delete refused while a
  decision refers to the infraction.
 */
module InfractionController {
  import opened Wrappers
  import opened Text
  import opened Rules
  import opened Tables
  import opened Schema
  import Integrity

  /** The fields of a create or update request; `None` for a field not sent. */
  datatype InfractionInput = InfractionInput(
    nom: Option<string>, date: Option<Day>, adresse: Option<string>,
    communeId: Option<int>, violantId: Option<int>, agentId: Option<int>, categorieId: Option<int>,
    latitude: Option<real>, longitude: Option<real>)

  const InfractionFields: set<Field> :=
    {Nom, Date, Adresse, CommuneId, ViolantId, AgentId, CategorieId, Latitude, Longitude}

  /** The create rule of field `f`. */
  predicate StoreRule(db: Db, input: InfractionInput, today: Day, f: Field) {
    match f
    case Nom => RequiredLength(input.nom, 2, 100)
    case Date => RequiredNotAfter(input.date, today)
    case Adresse => RequiredLength(input.adresse, 5, 255)
    case CommuneId => RequiredExists(input.communeId, db.communes.rows.Keys)
    case ViolantId => RequiredExists(input.violantId, db.violants.rows.Keys)
    case AgentId => RequiredExists(input.agentId, db.agents.rows.Keys)
    case CategorieId => RequiredExists(input.categorieId, db.categories.rows.Keys)
    case Latitude => RequiredBetween(input.latitude, -90.0, 90.0)
    case Longitude => RequiredBetween(input.longitude, -180.0, 180.0)
    case _ => true
  }

  /** Every create rule holds. */
  predicate StoreAccepts(db: Db, input: InfractionInput, today: Day) {
    forall f :: f in InfractionFields ==> StoreRule(db, input, today, f)
  }

  /** Every field of `input` is sent. */
  predicate Complete(input: InfractionInput) {
    && input.nom.Some? && input.date.Some? && input.adresse.Some?
    && input.communeId.Some? && input.violantId.Some? && input.agentId.Some? && input.categorieId.Some?
    && input.latitude.Some? && input.longitude.Some?
  }

  /** The row `Infraction::create` writes: `nom` and `adresse` trimmed, the rest as sent. */
  function NewRow(input: InfractionInput): Infraction
    requires Complete(input)
  {
    Infraction(Trim(input.nom.value), input.date.value, Trim(input.adresse.value),
               input.communeId.value, input.violantId.value,
               input.agentId.value, input.categorieId.value,
               input.latitude.value, input.longitude.value)
  }

  /** A request every create rule accepts carries all fields, and its references exist. */
  lemma AcceptedIsComplete(db: Db, input: InfractionInput, today: Day)
    requires StoreAccepts(db, input, today)
    ensures Complete(input) && db.RefsExist(NewRow(input))
  {
    assert StoreRule(db, input, today, Nom) && StoreRule(db, input, today, Date);
    assert StoreRule(db, input, today, Adresse) && StoreRule(db, input, today, CommuneId);
    assert StoreRule(db, input, today, ViolantId) && StoreRule(db, input, today, AgentId);
    assert StoreRule(db, input, today, CategorieId) && StoreRule(db, input, today, Latitude);
    assert StoreRule(db, input, today, Longitude);
  }

  /** Inserts `record` under the next auto-increment key. */
  function InsertRow(db: Db, record: Infraction): (r: Step<Outcome<Infraction>>)
    ensures r.outcome == Outcome.Created(db.infractions.next, record)
    ensures db.infractions.Valid() ==> db.infractions.next !in db.infractions.rows
    ensures r.db.infractions.rows == db.infractions.rows[db.infractions.next := record]
    ensures r.db.infractions.next == db.infractions.next + 1
    ensures r.db == db.(infractions := r.db.infractions)
    ensures db.Valid() && db.RefsExist(record) ==> r.db.Valid()
  {
    Integrity.InsertInfraction(db, record);
    Step(Outcome.Created(db.infractions.next, record), db.(infractions := db.infractions.Insert(record)))
  }

  /** `store`: validate, then insert. */
  function Store(db: Db, input: InfractionInput, today: Day): (r: Step<Outcome<Infraction>>)
    ensures r.outcome.Created? || r.outcome.Invalid?
    ensures r.outcome.Invalid? ==> r.db == db && r.outcome.fields != {}
    ensures forall f :: f in r.outcome.Rejected() <==> f in InfractionFields && !StoreRule(db, input, today, f)
    ensures r.outcome.Created? ==> Complete(input) && r.outcome.record == NewRow(input)
    ensures r.outcome.Created? ==>
      && (db.infractions.Valid() ==> r.outcome.id !in db.infractions.rows)
      && r.db.infractions.rows == db.infractions.rows[r.outcome.id := r.outcome.record]
      && r.db.infractions.next == db.infractions.next + 1
      && r.db == db.(infractions := r.db.infractions)
      && Show(r.db, r.outcome.id) == Found(r.outcome.id, r.outcome.record)
    ensures db.Valid() ==> r.db.Valid()
  {
    if StoreAccepts(db, input, today) then
      AcceptedIsComplete(db, input, today);
      InsertRow(db, NewRow(input))
    else
      Step(Invalid(Failing(InfractionFields, f => StoreRule(db, input, today, f))), db)
  }

  /**
    A create naming a commune that does not exist is refused with an error on
    `commune_id`, and the store is left as it was.
   */
  lemma StoreRejectsMissingCommune(db: Db, input: InfractionInput, today: Day)
    requires input.communeId.Some? && input.communeId.value !in db.communes.rows
    ensures var r := Store(db, input, today);
      r.outcome.Invalid? && CommuneId in r.outcome.fields && r.db == db
  {
    assert !StoreRule(db, input, today, CommuneId);
    assert !StoreAccepts(db, input, today);
  }

  /** `show`. */
  function Show(db: Db, id: int): (r: Outcome<Infraction>)
    ensures r.Found? || r.NotFound?
    ensures r.Found? <==> id in db.infractions.rows
    ensures r.Found? ==> r.id == id && r.record == db.infractions.rows[id]
  {
    Find(db.infractions, id)
  }

  /** The update rule of field `f`: it applies only when the field is sent. */
  predicate UpdateRule(db: Db, input: InfractionInput, today: Day, f: Field) {
    match f
    case Nom => SometimesRequiredLength(input.nom, 2, 100)
    case Date => SometimesNotAfter(input.date, today)
    case Adresse => SometimesRequiredLength(input.adresse, 5, 255)
    case CommuneId => SometimesExists(input.communeId, db.communes.rows.Keys)
    case ViolantId => SometimesExists(input.violantId, db.violants.rows.Keys)
    case AgentId => SometimesExists(input.agentId, db.agents.rows.Keys)
    case CategorieId => SometimesExists(input.categorieId, db.categories.rows.Keys)
    case Latitude => SometimesBetween(input.latitude, -90.0, 90.0)
    case Longitude => SometimesBetween(input.longitude, -180.0, 180.0)
    case _ => true
  }

  /** `$infraction->update($request->only([...]))` with `nom` and `adresse` trimmed. */
  function Apply(prev: Infraction, input: InfractionInput): Infraction {
    Infraction(
      if input.nom.Some? then Trim(input.nom.value) else prev.nom,
      input.date.GetOr(prev.date),
      if input.adresse.Some? then Trim(input.adresse.value) else prev.adresse,
      input.communeId.GetOr(prev.communeId),
      input.violantId.GetOr(prev.violantId),
      input.agentId.GetOr(prev.agentId),
      input.categorieId.GetOr(prev.categorieId),
      input.latitude.GetOr(prev.latitude),
      input.longitude.GetOr(prev.longitude))
  }

  /** Every update rule holds. */
  predicate UpdateAccepts(db: Db, input: InfractionInput, today: Day) {
    forall f :: f in InfractionFields ==> UpdateRule(db, input, today, f)
  }

  /** An accepted update only moves a foreign key onto an existing row. */
  lemma AcceptedUpdateKeepsRefs(db: Db, prev: Infraction, input: InfractionInput, today: Day)
    requires UpdateAccepts(db, input, today)
    ensures db.RefsExist(prev) ==> db.RefsExist(Apply(prev, input))
  {
    assert UpdateRule(db, input, today, CommuneId) && UpdateRule(db, input, today, ViolantId);
    assert UpdateRule(db, input, today, AgentId) && UpdateRule(db, input, today, CategorieId);
  }

  /** Two infraction updates in turn, as one: a field the later one sends wins, otherwise the earlier one's. */
  function Merge(earlier: InfractionInput, later: InfractionInput): InfractionInput {
    InfractionInput(
      later.nom.Or(earlier.nom),
      later.date.Or(earlier.date),
      later.adresse.Or(earlier.adresse),
      later.communeId.Or(earlier.communeId),
      later.violantId.Or(earlier.violantId),
      later.agentId.Or(earlier.agentId),
      later.categorieId.Or(earlier.categorieId),
      later.latitude.Or(earlier.latitude),
      later.longitude.Or(earlier.longitude))
  }

  /** An update that sends none of the fields leaves the row as it was. */
  lemma ApplyNothing(prev: Infraction)
    ensures Apply(prev, InfractionInput(None, None, None, None, None, None, None, None, None)) == prev
  {
  }

  /** Applying two updates in turn is applying their merge once. */
  lemma ApplyMerge(prev: Infraction, earlier: InfractionInput, later: InfractionInput)
    ensures Apply(Apply(prev, earlier), later) == Apply(prev, Merge(earlier, later))
  {
  }

  /** Writes `record` over row `id`. */
  function PutRow(db: Db, id: int, record: Infraction): (r: Step<Outcome<Infraction>>)
    requires id in db.infractions.rows
    ensures r.outcome == Updated(id, record)
    ensures r.db.infractions.rows == db.infractions.rows[id := record]
    ensures r.db.infractions.next == db.infractions.next
    ensures r.db == db.(infractions := r.db.infractions)
    ensures db.Valid() && db.RefsExist(record) ==> r.db.Valid()
  {
    Integrity.PutInfraction(db, id, record);
    Step(Updated(id, record), db.(infractions := db.infractions.Put(id, record)))
  }

  /** `update`: a missing row is reported before any validation. */
  function Update(db: Db, id: int, input: InfractionInput, today: Day): (r: Step<Outcome<Infraction>>)
    ensures id !in db.infractions.rows ==> r == Step(NotFound, db)
    ensures id in db.infractions.rows ==> r.outcome.Updated? || r.outcome.Invalid?
    ensures r.outcome.Invalid? ==> r.db == db && r.outcome.fields != {}
    ensures id in db.infractions.rows ==>
      forall f :: f in r.outcome.Rejected() <==> f in InfractionFields && !UpdateRule(db, input, today, f)
    ensures r.outcome.Updated? ==>
      && r.outcome.id == id
      && r.outcome.record == Apply(db.infractions.rows[id], input)
      && r.db.infractions.rows == db.infractions.rows[id := r.outcome.record]
      && r.db == db.(infractions := r.db.infractions)
      && Show(r.db, id) == Found(id, r.outcome.record)
    ensures db.Valid() ==> r.db.Valid()
  {
    if id !in db.infractions.rows then
      Step(NotFound, db)
    else if UpdateAccepts(db, input, today) then
      AcceptedUpdateKeepsRefs(db, db.infractions.rows[id], input, today);
      PutRow(db, id, Apply(db.infractions.rows[id], input))
    else
      Step(Invalid(Failing(InfractionFields, f => UpdateRule(db, input, today, f))), db)
  }

  /** `destroy`: not found first, then refused while a decision refers to the infraction. */
  function Destroy(db: Db, id: int): (r: Step<Outcome<Infraction>>)
    ensures r.outcome.NotFound? || r.outcome.Conflict? || r.outcome.Deleted?
    ensures r.outcome.NotFound? <==> id !in db.infractions.rows
    ensures id in db.infractions.rows ==> (r.outcome.Conflict? <==> exists k :: k in db.DecisionsOn(id))
    ensures r.outcome.Conflict? ==>
      && r.outcome.refId in db.decisions.rows
      && db.decisions.rows[r.outcome.refId].infractionId == id
      && forall k :: k in db.DecisionsOn(id) ==> r.outcome.refId <= k
    ensures !r.outcome.Deleted? ==> r.db == db
    ensures r.outcome.Deleted? ==>
      && r.db.infractions.rows.Keys == db.infractions.rows.Keys - {id}
      && r.db.infractions.next == db.infractions.next
      && (forall k :: k in r.db.infractions.rows ==> r.db.infractions.rows[k] == db.infractions.rows[k])
      && r.db == db.(infractions := r.db.infractions)
      && Show(r.db, id) == NotFound
    ensures db.Valid() ==> r.db.Valid()
  {
    var decision := First(db.DecisionsOn(id));
    if id !in db.infractions.rows then
      Step(NotFound, db)
    else if decision.Some? then
      Step(Conflict(decision.value), db)
    else
      Integrity.RemoveInfraction(db, id);
      Step(Deleted, db.(infractions := db.infractions.Remove(id)))
  }

  /**
    Deleting an infraction right after creating it succeeds, since no decision
    can refer to a fresh key, and gives back the store as it was apart from the
    advanced auto-increment counter.
   */
  lemma StoreThenDestroy(db: Db, input: InfractionInput, today: Day)
    requires db.Valid()
    ensures var r := Store(db, input, today);
      r.outcome.Created? ==>
        Destroy(r.db, r.outcome.id) ==
        Step(Deleted, db.(infractions := Table(db.infractions.rows, db.infractions.next + 1)))
  {
    var r := Store(db, input, today);
    if r.outcome.Created? {
      var id := r.outcome.id;
      var after := r.db;
      assert after.infractions == db.infractions.Insert(r.outcome.record);
      forall k | k in after.decisions.rows
        ensures k !in after.DecisionsOn(id)
      {
        assert db.decisions.rows[k].infractionId in db.infractions.rows;
      }
      assert First(after.DecisionsOn(id)).None?;
      assert Destroy(after, id) == Step(Deleted, after.(infractions := after.infractions.Remove(id)));
      RemoveInserted(db.infractions, r.outcome.record);
    }
  }
}
