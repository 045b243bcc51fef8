/**
  `CommuneController`: a validated create that trims the three names, an update
  that writes the request unvalidated over the fillable columns, and a delete
  refused while an infraction lies in the commune.
 */
module CommuneController {
  import opened Wrappers
  import opened Text
  import opened Rules
  import opened Tables
  import opened Schema
  import Integrity
  import Guard

  /** The fields of a create or update request; `None` for a field not sent. */
  datatype CommuneInput = CommuneInput(
    pachalikCircon: Option<string>, caidat: Option<string>, nom: Option<string>,
    latitude: Option<real>, longitude: Option<real>)

  const CommuneFields: set<Field> := {PachalikCircon, Caidat, Nom, Latitude, Longitude}

  /** The create rule of field `f`. */
  predicate StoreRule(input: CommuneInput, f: Field) {
    match f
    case PachalikCircon => RequiredLength(input.pachalikCircon, 2, 200)
    case Caidat => RequiredLength(input.caidat, 2, 200)
    case Nom => RequiredLength(input.nom, 2, 50)
    case Latitude => RequiredBetween(input.latitude, -90.0, 90.0)
    case Longitude => RequiredBetween(input.longitude, -180.0, 180.0)
    case _ => true
  }

  predicate StoreAccepts(input: CommuneInput) {
    forall f :: f in CommuneFields ==> StoreRule(input, f)
  }

  predicate Complete(input: CommuneInput) {
    input.pachalikCircon.Some? && input.caidat.Some? && input.nom.Some?
    && input.latitude.Some? && input.longitude.Some?
  }

  /** The row `Commune::create` writes: the three names trimmed, the coordinates as sent. */
  function NewRow(input: CommuneInput): Commune
    requires Complete(input)
  {
    Commune(Trim(input.pachalikCircon.value), Trim(input.caidat.value), Trim(input.nom.value),
            input.latitude.value, input.longitude.value)
  }

  /** Both coordinates lie in their ranges, bounds included. */
  predicate OnMap(c: Commune) {
    -90.0 <= c.latitude <= 90.0 && -180.0 <= c.longitude <= 180.0
  }

  /** Every stored commune has coordinates in range. */
  predicate AllOnMap(db: Db) {
    forall k :: k in db.communes.rows ==> OnMap(db.communes.rows[k])
  }

  /** An accepted request carries all five fields, with coordinates in range. */
  lemma AcceptedIsComplete(input: CommuneInput)
    requires StoreAccepts(input)
    ensures Complete(input) && OnMap(NewRow(input))
  {
    assert StoreRule(input, PachalikCircon) && StoreRule(input, Caidat) && StoreRule(input, Nom);
    assert StoreRule(input, Latitude) && StoreRule(input, Longitude);
  }

  /** Inserts `record` under the next auto-increment key. */
  function InsertRow(db: Db, record: Commune): (r: Step<Outcome<Commune>>)
    ensures r.outcome == Outcome.Created(db.communes.next, record)
    ensures db.communes.Valid() ==> db.communes.next !in db.communes.rows
    ensures r.db.communes.rows == db.communes.rows[db.communes.next := record]
    ensures r.db == db.(communes := r.db.communes)
    ensures db.Valid() ==> r.db.Valid()
    ensures AllOnMap(db) && OnMap(record) ==> AllOnMap(r.db)
  {
    var after := db.(communes := db.communes.Insert(record));
    Integrity.TargetsGrow(db, after);
    Step(Outcome.Created(db.communes.next, record), after)
  }

  /** `store`: validate, then insert. */
  function Store(db: Db, input: CommuneInput): (r: Step<Outcome<Commune>>)
    ensures r.outcome.Created? || r.outcome.Invalid?
    ensures r.outcome.Invalid? ==> r.db == db && r.outcome.fields != {}
    ensures forall f :: f in r.outcome.Rejected() <==> f in CommuneFields && !StoreRule(input, f)
    ensures r.outcome.Created? ==> Complete(input) && r.outcome.record == NewRow(input)
    ensures r.outcome.Created? ==>
      && OnMap(r.outcome.record)
      && (db.communes.Valid() ==> r.outcome.id !in db.communes.rows)
      && r.db.communes.rows == db.communes.rows[r.outcome.id := r.outcome.record]
      && r.db == db.(communes := r.db.communes)
      && Show(r.db, r.outcome.id) == Found(r.outcome.id, r.outcome.record)
    ensures db.Valid() ==> r.db.Valid()
    ensures AllOnMap(db) ==> AllOnMap(r.db)
  {
    if StoreAccepts(input) then
      AcceptedIsComplete(input);
      InsertRow(db, NewRow(input))
    else
      Step(Invalid(Failing(CommuneFields, f => StoreRule(input, f))), db)
  }

  /** `show`. */
  function Show(db: Db, id: int): (r: Outcome<Commune>)
    ensures r.Found? || r.NotFound?
    ensures r.Found? <==> id in db.communes.rows
    ensures r.Found? ==> r.id == id && r.record == db.communes.rows[id]
  {
    Find(db.communes, id)
  }

  /** `$commune->update($request->all())`: every sent fillable field is written as sent. */
  function Apply(prev: Commune, input: CommuneInput): Commune {
    Commune(input.pachalikCircon.GetOr(prev.pachalikCircon), input.caidat.GetOr(prev.caidat),
            input.nom.GetOr(prev.nom), input.latitude.GetOr(prev.latitude),
            input.longitude.GetOr(prev.longitude))
  }

  /** `update`: 404 for a missing row, otherwise the request is written without any check. */
  function Update(db: Db, id: int, input: CommuneInput): (r: Step<Outcome<Commune>>)
    ensures id !in db.communes.rows ==> r == Step(NotFound, db)
    ensures id in db.communes.rows ==>
      && r.outcome == Updated(id, Apply(db.communes.rows[id], input))
      && r.db == db.(communes := db.communes.Put(id, r.outcome.record))
      && Show(r.db, id) == Found(id, r.outcome.record)
    ensures db.Valid() ==> r.db.Valid()
  {
    if id !in db.communes.rows then
      Step(NotFound, db)
    else
      var record := Apply(db.communes.rows[id], input);
      var after := db.(communes := db.communes.Put(id, record));
      Integrity.TargetsGrow(db, after);
      Step(Updated(id, record), after)
  }

  /** Two commune updates in turn, as one: a field the later one sends wins, otherwise the earlier one's. */
  function Merge(earlier: CommuneInput, later: CommuneInput): CommuneInput {
    CommuneInput(
      later.pachalikCircon.Or(earlier.pachalikCircon),
      later.caidat.Or(earlier.caidat),
      later.nom.Or(earlier.nom),
      later.latitude.Or(earlier.latitude),
      later.longitude.Or(earlier.longitude))
  }

  /** An update that sends none of the fields leaves the row as it was. */
  lemma ApplyNothing(prev: Commune)
    ensures Apply(prev, CommuneInput(None, None, None, None, None)) == prev
  {
  }

  /** Applying two updates in turn is applying their merge once. */
  lemma ApplyMerge(prev: Commune, earlier: CommuneInput, later: CommuneInput)
    ensures Apply(Apply(prev, earlier), later) == Apply(prev, Merge(earlier, later))
  {
  }

  /**
    The update skips the rules `store` enforces: a latitude of 91 is stored,
    and the commune leaves the map, although `store` refuses that latitude.
   */
  lemma UpdateStoresOffMapLatitude(db: Db, id: int, input: CommuneInput)
    requires id in db.communes.rows
    requires input.latitude == Some(91.0)
    ensures Update(db, id, input).outcome.Updated?
    ensures Update(db, id, input).db.communes.rows[id].latitude == 91.0
    ensures !AllOnMap(Update(db, id, input).db)
    ensures !StoreRule(input, Latitude)
  {
    assert !OnMap(Update(db, id, input).db.communes.rows[id]);
  }

  /** `destroy`: 404 first, then 409 while an infraction has this `commune_id`. */
  function Destroy(db: Db, id: int): (r: Step<Outcome<Commune>>)
    ensures r.outcome.NotFound? || r.outcome.Conflict? || r.outcome.Deleted?
    ensures r.outcome.NotFound? <==> id !in db.communes.rows
    ensures id in db.communes.rows ==>
      (r.outcome.Conflict? <==> exists k :: k in db.infractions.rows && db.infractions.rows[k].communeId == id)
    ensures r.outcome.Conflict? ==>
      && r.outcome.refId in db.infractions.rows
      && db.infractions.rows[r.outcome.refId].communeId == id
      && forall k :: k in db.infractions.rows && db.infractions.rows[k].communeId == id ==> r.outcome.refId <= k
    ensures !r.outcome.Deleted? ==> r.db == db
    ensures r.outcome.Deleted? ==>
      && r.db == db.(communes := db.communes.Remove(id))
      && Show(r.db, id) == NotFound
    ensures db.Valid() ==> r.db.Valid()
  {
    var r := Guard.DestroyTarget(db, CommuneFk, id);
    assert r.outcome.Conflict? ==> r.outcome.refId in db.Referencing(CommuneFk, id);
    assert forall k :: k in db.Referencing(CommuneFk, id) <==>
      k in db.infractions.rows && db.infractions.rows[k].communeId == id;
    r
  }
}
