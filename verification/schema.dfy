/**
  The seven tables of the municipal infraction store, the replies a controller
  action can give, and the referential-integrity invariant: every foreign key
  of an infraction and of a decision names an existing row.
 */
module Schema {
  import opened Wrappers
  import opened Tables

  /** Calendar dates as day numbers; `today` is a parameter wherever a rule compares with it. */
  type Day = int

  datatype Agent = Agent(nom: string, prenom: string, tel: string, cin: string)

  datatype Violant = Violant(nom: string, prenom: string, cin: string)

  datatype Commune = Commune(pachalikCircon: string, caidat: string, nom: string,
                             latitude: real, longitude: real)

  datatype Categorie = Categorie(nom: string, degre: int)

  /** The four tables an infraction points into. */
  datatype Fk = CommuneFk | ViolantFk | AgentFk | CategorieFk

  datatype Infraction = Infraction(nom: string, date: Day, adresse: string,
                                   communeId: int, violantId: int, agentId: int, categorieId: int,
                                   latitude: real, longitude: real)
  {
    /** The foreign key column `fk`. */
    function Ref(fk: Fk): int {
      match fk
      case CommuneFk => communeId
      case ViolantFk => violantId
      case AgentFk => agentId
      case CategorieFk => categorieId
    }
  }

  datatype Decision = Decision(date: Day, decisionPrise: string, infractionId: int)

  /** An application user; it is outside the infraction reference graph. */
  datatype User = User(nom: string, prenom: string, tel: string, role: string, login: string)

  /**
    Request field names, as they appear in validation error replies.
    `Tel` stands for both the agent's `tel` and the user's `Tel`.
   */
  datatype Field =
    | Nom | Prenom | Cin | Tel | Role | Login
    | PachalikCircon | Caidat | Latitude | Longitude | Degre
    | Date | Adresse | CommuneId | ViolantId | AgentId | CategorieId
    | DecisionPrise | InfractionId

  /** The fields among `fields` whose rule does not hold: the keys of a validation error reply. */
  function Failing(fields: set<Field>, holds: Field -> bool): (errors: set<Field>)
    ensures forall f :: f in errors <==> f in fields && !holds(f)
  {
    set f | f in fields && !holds(f)
  }

  /** The error reply is empty exactly when every validated field passes its rule. */
  lemma FailingEmptyIff(fields: set<Field>, holds: Field -> bool)
    ensures Failing(fields, holds) == {} <==> forall f :: f in fields ==> holds(f)
  {
    if forall f :: f in fields ==> holds(f) {
      assert forall f :: f !in Failing(fields, holds);
    }
  }

  datatype Db = Db(agents: Table<Agent>, violants: Table<Violant>, communes: Table<Commune>,
                   categories: Table<Categorie>, infractions: Table<Infraction>,
                   decisions: Table<Decision>, users: Table<User>)
  {
    /** The keys of the table `fk` points into. */
    function Targets(fk: Fk): set<int> {
      match fk
      case CommuneFk => communes.rows.Keys
      case ViolantFk => violants.rows.Keys
      case AgentFk => agents.rows.Keys
      case CategorieFk => categories.rows.Keys
    }

    /** All four foreign keys of `inf` name existing rows. */
    predicate RefsExist(inf: Infraction) {
      && inf.communeId in communes.rows
      && inf.violantId in violants.rows
      && inf.agentId in agents.rows
      && inf.categorieId in categories.rows
    }

    /** Every stored infraction and decision points at existing rows. */
    predicate Integrity() {
      && (forall k :: k in infractions.rows ==> RefsExist(infractions.rows[k]))
      && (forall k :: k in decisions.rows ==> decisions.rows[k].infractionId in infractions.rows)
    }

    predicate Valid() {
      && agents.Valid() && violants.Valid() && communes.Valid() && categories.Valid()
      && infractions.Valid() && decisions.Valid() && users.Valid()
      && Integrity()
    }

    /** The store without row `id` of the table `fk` points into. */
    function Drop(fk: Fk, id: int): Db {
      match fk
      case CommuneFk => this.(communes := communes.Remove(id))
      case ViolantFk => this.(violants := violants.Remove(id))
      case AgentFk => this.(agents := agents.Remove(id))
      case CategorieFk => this.(categories := categories.Remove(id))
    }

    /** The infractions whose column `fk` equals `id`. */
    function Referencing(fk: Fk, id: int): (r: set<int>)
      ensures forall k :: k in r <==> k in infractions.rows && infractions.rows[k].Ref(fk) == id
    {
      set k | k in infractions.rows && infractions.rows[k].Ref(fk) == id
    }

    /** The decisions recorded against infraction `id`. */
    function DecisionsOn(id: int): (r: set<int>)
      ensures forall k :: k in r <==> k in decisions.rows && decisions.rows[k].infractionId == id
    {
      set k | k in decisions.rows && decisions.rows[k].infractionId == id
    }
  }

  function EmptyDb(): (db: Db)
    ensures db.Valid()
  {
    Db(EmptyTable(), EmptyTable(), EmptyTable(), EmptyTable(), EmptyTable(), EmptyTable(), EmptyTable())
  }

  /** What a controller action answers, reduced from its JSON reply and HTTP status. */
  datatype Outcome<R> =
    | Created(id: int, record: R)   // 201 with the new row
    | Found(id: int, record: R)     // 200 with the row
    | Updated(id: int, record: R)   // 200 with the row after the update
    | Deleted                       // 200 with a confirmation message
    | Invalid(fields: set<Field>)   // 400 with one error list per failing field
    | NotFound                      // 404
    | Conflict(refId: int)          // 409 naming the row that still refers to the target
  {
    /** The fields named in a validation error reply. */
    function Rejected(): set<Field> {
      if Invalid? then fields else {}
    }
  }

  /** A reply together with the store after the action. */
  datatype Step<O> = Step(outcome: O, db: Db)

  /** `Model::find($id)` followed by a 404 when there is no such row. */
  function Find<R>(t: Table<R>, id: int): (r: Outcome<R>)
    ensures r.Found? || r.NotFound?
    ensures r.Found? <==> id in t.rows
    ensures r.Found? ==> r.id == id && r.record == t.rows[id]
  {
    if id in t.rows then Found(id, t.rows[id]) else NotFound
  }
}
