/**
  The API as a whole: every request that writes to the store, dispatched to its
  controller, and a run of such requests one after another. Every write except
  a decision update that points `infraction_id` at a missing infraction keeps
  the store valid, so any run of those keeps it valid too. The decision table's
  foreign key would make the database refuse that one write; the controllers
  alone let it through.
 */
module Api {
  import opened Wrappers
  import opened Schema
  import InfractionController
  import CommuneController
  import CategorieController
  import ViolantController
  import DecisionController
  import AgentController
  import UserController

  /** A write to one resource: `POST /resource`, `PUT /resource/{id}` or `DELETE /resource/{id}`. */
  datatype Action<I> = Store(input: I) | Update(id: int, input: I) | Destroy(id: int)

  /** A request that may change the store, by resource. */
  datatype Request =
    | Infractions(infraction: Action<InfractionController.InfractionInput>)
    | Communes(commune: Action<CommuneController.CommuneInput>)
    | Categories(categorie: Action<CategorieController.CategorieInput>)
    | Violants(violant: Action<ViolantController.ViolantInput>)
    | Decisions(decision: Action<DecisionController.DecisionInput>)
    | Agents(agent: Action<AgentController.AgentInput>)
    | Users(user: Action<UserController.UserInput>)

  /** A request together with the day it arrives on. */
  datatype Call = Call(today: Day, request: Request)

  /** A decision update that points `infraction_id` at an infraction missing from `db`. */
  predicate Relinks(db: Db, a: Action<DecisionController.DecisionInput>) {
    a.Update? && a.input.infractionId.Some? && a.input.infractionId.value !in db.infractions.rows
  }

  /** Every request except such a decision update. */
  predicate Guarded(db: Db, req: Request) {
    !(req.Decisions? && Relinks(db, req.decision))
  }

  function HandleInfraction(db: Db, today: Day, a: Action<InfractionController.InfractionInput>): (r: Db)
    ensures db.Valid() ==> r.Valid()
  {
    match a
    case Store(input) => InfractionController.Store(db, input, today).db
    case Update(id, input) => InfractionController.Update(db, id, input, today).db
    case Destroy(id) => InfractionController.Destroy(db, id).db
  }

  function HandleCommune(db: Db, a: Action<CommuneController.CommuneInput>): (r: Db)
    ensures db.Valid() ==> r.Valid()
  {
    match a
    case Store(input) => CommuneController.Store(db, input).db
    case Update(id, input) => CommuneController.Update(db, id, input).db
    case Destroy(id) => CommuneController.Destroy(db, id).db
  }

  function HandleCategorie(db: Db, a: Action<CategorieController.CategorieInput>): (r: Db)
    ensures db.Valid() ==> r.Valid()
  {
    match a
    case Store(input) => CategorieController.Store(db, input).db
    case Update(id, input) => CategorieController.Update(db, id, input).db
    case Destroy(id) => CategorieController.Destroy(db, id).db
  }

  function HandleViolant(db: Db, a: Action<ViolantController.ViolantInput>): (r: Db)
    ensures db.Valid() ==> r.Valid()
  {
    match a
    case Store(input) => ViolantController.Store(db, input).db
    case Update(id, input) => ViolantController.Update(db, id, input).db
    case Destroy(id) => ViolantController.Destroy(db, id).db
  }

  function HandleDecision(db: Db, today: Day, a: Action<DecisionController.DecisionInput>): (r: Db)
    ensures db.Valid() && !Relinks(db, a) ==> r.Valid()
  {
    match a
    case Store(input) => DecisionController.Store(db, input, today).db
    case Update(id, input) => DecisionController.Update(db, id, input).db
    case Destroy(id) => DecisionController.Destroy(db, id).db
  }

  function HandleAgent(db: Db, a: Action<AgentController.AgentInput>): (r: Db)
    ensures db.Valid() ==> r.Valid()
  {
    match a
    case Store(input) => AgentController.Store(db, input).db
    case Update(id, input) => AgentController.Update(db, id, input).db
    case Destroy(id) => AgentController.Destroy(db, id).db
  }

  function HandleUser(db: Db, a: Action<UserController.UserInput>): (r: Db)
    ensures db.Valid() ==> r.Valid()
  {
    match a
    case Store(input) => UserController.Store(db, input).db
    case Update(id, input) => UserController.Update(db, id, input).db
    case Destroy(id) => UserController.Destroy(db, id).db
  }

  /** The store after the controller action for `call`. */
  function Handle(db: Db, call: Call): (r: Db)
    ensures db.Valid() && Guarded(db, call.request) ==> r.Valid()
  {
    match call.request
    case Infractions(a) => HandleInfraction(db, call.today, a)
    case Communes(a) => HandleCommune(db, a)
    case Categories(a) => HandleCategorie(db, a)
    case Violants(a) => HandleViolant(db, a)
    case Decisions(a) => HandleDecision(db, call.today, a)
    case Agents(a) => HandleAgent(db, a)
    case Users(a) => HandleUser(db, a)
  }

  /** The store after the calls, handled in order. */
  function Run(db: Db, calls: seq<Call>): Db
    decreases |calls|
  {
    if |calls| == 0 then db else Run(Handle(db, calls[0]), calls[1..])
  }

  /** Each call is guarded in the store the calls before it leave. */
  predicate GuardedRun(db: Db, calls: seq<Call>)
    decreases |calls|
  {
    |calls| == 0 || (Guarded(db, calls[0].request) && GuardedRun(Handle(db, calls[0]), calls[1..]))
  }

  /** A valid store stays valid through any run whose every call is guarded when it arrives. */
  lemma {:induction false} RunPreservesValid(db: Db, calls: seq<Call>)
    requires db.Valid() && GuardedRun(db, calls)
    ensures Run(db, calls).Valid()
    decreases |calls|
  {
    if |calls| > 0 {
      RunPreservesValid(Handle(db, calls[0]), calls[1..]);
    }
  }

  /** A decision update that does not send `infraction_id` at all. */
  predicate KeepsLink(req: Request) {
    !(req.Decisions? && req.decision.Update? && req.decision.input.infractionId.Some?)
  }

  /** A run that never sends `infraction_id` to a decision update is guarded in every store. */
  lemma {:induction false} KeepsLinkIsGuarded(db: Db, calls: seq<Call>)
    requires forall i :: 0 <= i < |calls| ==> KeepsLink(calls[i].request)
    ensures GuardedRun(db, calls)
    decreases |calls|
  {
    if |calls| > 0 {
      assert KeepsLink(calls[0].request);
      KeepsLinkIsGuarded(Handle(db, calls[0]), calls[1..]);
    }
  }

  /** A run is its prefix followed by its suffix. */
  lemma {:induction false} RunAppend(db: Db, front: seq<Call>, back: seq<Call>)
    ensures Run(db, front + back) == Run(Run(db, front), back)
    decreases |front|
  {
    if |front| > 0 {
      assert (front + back)[1..] == front[1..] + back;
      RunAppend(Handle(db, front[0]), front[1..], back);
    } else {
      assert front + back == back;
    }
  }

  /**
    The guard is needed: on any valid store holding a decision, the one kind
    of request `Guarded` excludes, a decision update naming a missing
    infraction, leaves the store invalid.
   */
  lemma UnguardedUpdateBreaksValid(db: Db, today: Day, id: int, n: int)
    requires db.Valid() && id in db.decisions.rows && n !in db.infractions.rows
    ensures var a := Update(id, DecisionController.DecisionInput(None, None, Some(n)));
      !Guarded(db, Decisions(a)) && !HandleDecision(db, today, a).Valid()
  {
    DecisionController.UpdateBreaksIntegrity(db, id, n, today);
  }
}
