/**
  `CategorieController`: a category has a name and a severity degree from 1
  to 5. Create and partial update validate both; delete is refused while an
  infraction falls in the category.
 */
module CategorieController {
  import opened Wrappers
  import opened Text
  import opened Rules
  import opened Tables
  import opened Schema
  import Integrity
  import Guard

  /** The fields of a create or update request; `None` for a field not sent. */
  datatype CategorieInput = CategorieInput(nom: Option<string>, degre: Option<int>)

  const CategorieFields: set<Field> := {Nom, Degre}

  /** The create rule of field `f`. */
  predicate StoreRule(input: CategorieInput, f: Field) {
    match f
    case Nom => RequiredLength(input.nom, 2, 50)
    case Degre => RequiredIntBetween(input.degre, 1, 5)
    case _ => true
  }

  /** A severity the application accepts. */
  predicate DegreInRange(c: Categorie) {
    1 <= c.degre <= 5
  }

  /** Every stored category has an accepted severity. */
  predicate AllInRange(db: Db) {
    forall k :: k in db.categories.rows ==> DegreInRange(db.categories.rows[k])
  }

  /** Inserts `record` under the next auto-increment key. */
  function InsertRow(db: Db, record: Categorie): (r: Step<Outcome<Categorie>>)
    ensures r.outcome == Outcome.Created(db.categories.next, record)
    ensures db.categories.Valid() ==> db.categories.next !in db.categories.rows
    ensures r.db.categories.rows == db.categories.rows[db.categories.next := record]
    ensures r.db == db.(categories := r.db.categories)
    ensures db.Valid() ==> r.db.Valid()
  {
    var after := db.(categories := db.categories.Insert(record));
    Integrity.TargetsGrow(db, after);
    Step(Outcome.Created(db.categories.next, record), after)
  }

  /** `store`: validate, then insert the trimmed name and the degree. */
  function Store(db: Db, input: CategorieInput): (r: Step<Outcome<Categorie>>)
    ensures r.outcome.Created? || r.outcome.Invalid?
    ensures r.outcome.Invalid? ==> r.db == db && r.outcome.fields != {}
    ensures forall f :: f in r.outcome.Rejected() <==> f in CategorieFields && !StoreRule(input, f)
    ensures r.outcome.Created? ==>
      && input.nom.Some? && input.degre.Some?
      && r.outcome.record == Categorie(Trim(input.nom.value), input.degre.value)
      && DegreInRange(r.outcome.record)
      && (db.categories.Valid() ==> r.outcome.id !in db.categories.rows)
      && r.db.categories.rows == db.categories.rows[r.outcome.id := r.outcome.record]
      && r.db == db.(categories := r.db.categories)
      && Show(r.db, r.outcome.id) == Found(r.outcome.id, r.outcome.record)
    ensures db.Valid() ==> r.db.Valid()
    ensures AllInRange(db) ==> AllInRange(r.db)
  {
    if StoreRule(input, Nom) && StoreRule(input, Degre) then
      InsertRow(db, Categorie(Trim(input.nom.value), input.degre.value))
    else
      Step(Invalid(Failing(CategorieFields, f => StoreRule(input, f))), db)
  }

  /** `show`. */
  function Show(db: Db, id: int): (r: Outcome<Categorie>)
    ensures r.Found? || r.NotFound?
    ensures r.Found? <==> id in db.categories.rows
    ensures r.Found? ==> r.id == id && r.record == db.categories.rows[id]
  {
    Find(db.categories, id)
  }

  /**
    The update rule of field `f`. `nom` carries no `required`, so a blank
    name skips its length rule and passes.
   */
  predicate UpdateRule(input: CategorieInput, f: Field) {
    match f
    case Nom => SometimesLength(input.nom, 2, 50)
    case Degre => SometimesIntBetween(input.degre, 1, 5)
    case _ => true
  }

  /** `$categorie->update($request->only(['nom', 'degre']))` with the name trimmed. */
  function Apply(prev: Categorie, input: CategorieInput): (rec: Categorie)
    ensures rec.nom == (if input.nom.Some? then Trim(input.nom.value) else prev.nom)
    ensures rec.degre == (if input.degre.Some? then input.degre.value else prev.degre)
  {
    Categorie(if input.nom.Some? then Trim(input.nom.value) else prev.nom, input.degre.GetOr(prev.degre))
  }

  /** Two category updates in turn, as one: a field the later one sends wins, otherwise the earlier one's. */
  function Merge(earlier: CategorieInput, later: CategorieInput): CategorieInput {
    CategorieInput(
      later.nom.Or(earlier.nom),
      later.degre.Or(earlier.degre))
  }

  /** An update that sends none of the fields leaves the row as it was. */
  lemma ApplyNothing(prev: Categorie)
    ensures Apply(prev, CategorieInput(None, None)) == prev
  {
  }

  /** Applying two updates in turn is applying their merge once. */
  lemma ApplyMerge(prev: Categorie, earlier: CategorieInput, later: CategorieInput)
    ensures Apply(Apply(prev, earlier), later) == Apply(prev, Merge(earlier, later))
  {
  }

  /** Writes `record` over row `id`. */
  function PutRow(db: Db, id: int, record: Categorie): (r: Step<Outcome<Categorie>>)
    requires id in db.categories.rows
    ensures r.outcome == Updated(id, record)
    ensures r.db == db.(categories := db.categories.Put(id, record))
    ensures db.Valid() ==> r.db.Valid()
  {
    var after := db.(categories := db.categories.Put(id, record));
    Integrity.TargetsGrow(db, after);
    Step(Updated(id, record), after)
  }

  /** `update`: 404 before any validation, then the sent fields are checked and written. */
  function Update(db: Db, id: int, input: CategorieInput): (r: Step<Outcome<Categorie>>)
    ensures id !in db.categories.rows ==> r == Step(NotFound, db)
    ensures id in db.categories.rows ==> r.outcome.Updated? || r.outcome.Invalid?
    ensures r.outcome.Invalid? ==> r.db == db && r.outcome.fields != {}
    ensures id in db.categories.rows ==>
      forall f :: f in r.outcome.Rejected() <==> f in CategorieFields && !UpdateRule(input, f)
    ensures r.outcome.Updated? ==>
      && r.outcome.id == id
      && r.outcome.record == Apply(db.categories.rows[id], input)
      && r.db == db.(categories := db.categories.Put(id, r.outcome.record))
      && Show(r.db, id) == Found(id, r.outcome.record)
    ensures db.Valid() ==> r.db.Valid()
    ensures AllInRange(db) ==> AllInRange(r.db)
  {
    if id !in db.categories.rows then
      Step(NotFound, db)
    else if UpdateRule(input, Nom) && UpdateRule(input, Degre) then
      PutRow(db, id, Apply(db.categories.rows[id], input))
    else
      Step(Invalid(Failing(CategorieFields, f => UpdateRule(input, f))), db)
  }

  /** Degrees 0 and 6 are refused on create, and 1 and 5 are accepted. */
  lemma StoreDegreBounds(db: Db, nom: string)
    requires 2 <= |nom| <= 50 && !Blank(nom)
    ensures Store(db, CategorieInput(Some(nom), Some(0))).outcome == Invalid({Degre})
    ensures Store(db, CategorieInput(Some(nom), Some(6))).outcome == Invalid({Degre})
    ensures Store(db, CategorieInput(Some(nom), Some(1))).outcome.Created?
    ensures Store(db, CategorieInput(Some(nom), Some(5))).outcome.Created?
  {
    assert Store(db, CategorieInput(Some(nom), Some(0))).outcome.Rejected() == {Degre};
    assert Store(db, CategorieInput(Some(nom), Some(6))).outcome.Rejected() == {Degre};
  }

  /** An update sending only an out-of-range degree is refused and changes nothing. */
  lemma UpdateRejectsDegre(db: Db, id: int, degre: int)
    requires id in db.categories.rows
    requires degre < 1 || 5 < degre
    ensures Update(db, id, CategorieInput(None, Some(degre))) == Step(Invalid({Degre}), db)
  {
    assert Update(db, id, CategorieInput(None, Some(degre))).outcome.Rejected() == {Degre};
  }

  /** An update sending only the name renames the category and keeps its degree. */
  lemma UpdateNomKeepsDegre(db: Db, id: int, nom: string)
    requires id in db.categories.rows
    requires 2 <= |nom| <= 50
    ensures var r := Update(db, id, CategorieInput(Some(nom), None));
      && r.outcome.Updated?
      && r.db.categories.rows[id] == Categorie(Trim(nom), db.categories.rows[id].degre)
  {
  }

  /** `destroy`: 404 first, then 409 while an infraction has this `categorie_id`. */
  function Destroy(db: Db, id: int): (r: Step<Outcome<Categorie>>)
    ensures r.outcome.NotFound? || r.outcome.Conflict? || r.outcome.Deleted?
    ensures r.outcome.NotFound? <==> id !in db.categories.rows
    ensures id in db.categories.rows ==>
      (r.outcome.Conflict? <==> exists k :: k in db.infractions.rows && db.infractions.rows[k].categorieId == id)
    ensures r.outcome.Conflict? ==>
      && r.outcome.refId in db.infractions.rows
      && db.infractions.rows[r.outcome.refId].categorieId == id
      && forall k :: k in db.infractions.rows && db.infractions.rows[k].categorieId == id ==> r.outcome.refId <= k
    ensures !r.outcome.Deleted? ==> r.db == db
    ensures r.outcome.Deleted? ==>
      && r.db == db.(categories := db.categories.Remove(id))
      && Show(r.db, id) == NotFound
    ensures db.Valid() ==> r.db.Valid()
  {
    var r := Guard.DestroyTarget(db, CategorieFk, id);
    assert r.outcome.Conflict? ==> r.outcome.refId in db.Referencing(CategorieFk, id);
    assert forall k :: k in db.Referencing(CategorieFk, id) <==>
      k in db.infractions.rows && db.infractions.rows[k].categorieId == id;
    r
  }
}
