/**
  `AgentController`: the agents who record infractions. Its replies differ from
  the other controllers: a create answers with an empty body, a missing agent
  is reported with an error or message object and status 200, and update
  writes the request without any check.
 */
module AgentController {
  import opened Wrappers
  import opened Rules
  import opened Tables
  import opened Schema
  import Integrity
  import Guard

  /** The replies of this controller, reduced from their JSON bodies. */
  datatype AgentReply =
    | Stored                              // empty body after a create
    | Errors(fields: set<Field>)          // 400 with one error list per failing field
    | Shown(id: int, agent: Agent)        // the agent as a JSON object
    | ErrorIntrouvable                    // {"Error": "Agent Introuvable"}
    | MessageIntrouvable                  // {"Message": "Agent introuvable"}
    | MessageInInfraction(infractionId: int) // {"Message": "L'Agent se trouve dans l'infraction: <id>"}
    | MessageSupprimee                    // {"Message": "Agent supprimée"}
  {
    function Rejected(): set<Field> {
      if Errors? then fields else {}
    }
  }

  /** The fields of a create or update request; `None` for a field not sent. */
  datatype AgentInput = AgentInput(nom: Option<string>, prenom: Option<string>, tel: Option<string>, cin: Option<string>)

  const AgentFields: set<Field> := {Nom, Prenom, Tel, Cin}

  /** `unique:agent,tel`. */
  predicate TelUnused(db: Db, tel: string) {
    forall k :: k in db.agents.rows ==> db.agents.rows[k].tel != tel
  }

  /** `unique:agent,cin`. */
  predicate CinUnused(db: Db, cin: string) {
    forall k :: k in db.agents.rows ==> db.agents.rows[k].cin != cin
  }

  /** No two agents share a phone number or a CIN. */
  predicate KeysDistinct(db: Db) {
    forall j, k :: j in db.agents.rows && k in db.agents.rows && j != k ==>
      db.agents.rows[j].tel != db.agents.rows[k].tel && db.agents.rows[j].cin != db.agents.rows[k].cin
  }

  /** The create rule of field `f`: presence, a maximum length, and uniqueness for `tel` and `cin`. */
  predicate StoreRule(db: Db, input: AgentInput, f: Field) {
    match f
    case Nom => RequiredMax(input.nom, 50)
    case Prenom => RequiredMax(input.prenom, 50)
    case Tel => RequiredMax(input.tel, 10) && TelUnused(db, input.tel.value)
    case Cin => RequiredMax(input.cin, 12) && CinUnused(db, input.cin.value)
    case _ => true
  }

  predicate StoreAccepts(db: Db, input: AgentInput) {
    forall f :: f in AgentFields ==> StoreRule(db, input, f)
  }

  /** A request every create rule accepts carries all four fields, a fresh phone number and a fresh CIN. */
  lemma AcceptedIsComplete(db: Db, input: AgentInput)
    requires StoreAccepts(db, input)
    ensures input.nom.Some? && input.prenom.Some? && input.tel.Some? && input.cin.Some?
    ensures |input.tel.value| <= 10 && |input.cin.value| <= 12
    ensures TelUnused(db, input.tel.value) && CinUnused(db, input.cin.value)
  {
    assert StoreRule(db, input, Nom) && StoreRule(db, input, Prenom);
    assert StoreRule(db, input, Tel) && StoreRule(db, input, Cin);
  }

  /** Inserts `record` under the next auto-increment key. */
  function InsertRow(db: Db, record: Agent): (r: Step<AgentReply>)
    ensures r.outcome == Stored
    ensures db.agents.Valid() ==> db.agents.next !in db.agents.rows
    ensures r.db.agents.rows == db.agents.rows[db.agents.next := record]
    ensures r.db == db.(agents := r.db.agents)
    ensures db.Valid() ==> r.db.Valid()
  {
    var after := db.(agents := db.agents.Insert(record));
    Integrity.TargetsGrow(db, after);
    Step(Stored, after)
  }

  /** `store`: validate, then insert the fields exactly as sent; the reply carries nothing. */
  function Store(db: Db, input: AgentInput): (r: Step<AgentReply>)
    ensures r.outcome.Stored? || r.outcome.Errors?
    ensures r.outcome.Errors? ==> r.db == db && r.outcome.fields != {}
    ensures forall f :: f in r.outcome.Rejected() <==> f in AgentFields && !StoreRule(db, input, f)
    ensures r.outcome.Stored? ==>
      && input.nom.Some? && input.prenom.Some? && input.tel.Some? && input.cin.Some?
      && |input.tel.value| <= 10 && |input.cin.value| <= 12
      && (db.agents.Valid() ==> db.agents.next !in db.agents.rows)
      && r.db.agents.rows == db.agents.rows[db.agents.next :=
           Agent(input.nom.value, input.prenom.value, input.tel.value, input.cin.value)]
      && r.db == db.(agents := r.db.agents)
      && Show(r.db, db.agents.next) == Shown(db.agents.next, r.db.agents.rows[db.agents.next])
    ensures db.Valid() ==> r.db.Valid()
  {
    if StoreAccepts(db, input) then
      AcceptedIsComplete(db, input);
      InsertRow(db, Agent(input.nom.value, input.prenom.value, input.tel.value, input.cin.value))
    else
      Step(Errors(Failing(AgentFields, f => StoreRule(db, input, f))), db)
  }

  /** A create never gives a second agent a phone number or a CIN already in use. */
  lemma StoreKeepsKeysDistinct(db: Db, input: AgentInput)
    requires db.agents.Valid() && KeysDistinct(db)
    ensures KeysDistinct(Store(db, input).db)
  {
    var r := Store(db, input);
    if r.outcome.Stored? {
      AcceptedIsComplete(db, input);
      var id := db.agents.next;
      var rows := r.db.agents.rows;
      forall j, k | j in rows && k in rows && j != k
        ensures rows[j].tel != rows[k].tel && rows[j].cin != rows[k].cin
      {
        if j == id {
          assert db.agents.rows[k].tel != input.tel.value && db.agents.rows[k].cin != input.cin.value;
        } else if k == id {
          assert db.agents.rows[j].tel != input.tel.value && db.agents.rows[j].cin != input.cin.value;
        }
      }
    }
  }

  /** `show`: the agent, or an error object with status 200. */
  function Show(db: Db, id: int): (r: AgentReply)
    ensures r.Shown? || r.ErrorIntrouvable?
    ensures r.Shown? <==> id in db.agents.rows
    ensures r.Shown? ==> r.id == id && r.agent == db.agents.rows[id]
  {
    if id in db.agents.rows then Shown(id, db.agents.rows[id]) else ErrorIntrouvable
  }

  /** `$Agent->update($request->all())`: every sent field is written as sent. */
  function Apply(prev: Agent, input: AgentInput): Agent {
    Agent(input.nom.GetOr(prev.nom), input.prenom.GetOr(prev.prenom),
          input.tel.GetOr(prev.tel), input.cin.GetOr(prev.cin))
  }

  /** `update`: the error object for a missing agent, otherwise an unchecked write. */
  function Update(db: Db, id: int, input: AgentInput): (r: Step<AgentReply>)
    ensures id !in db.agents.rows ==> r == Step(ErrorIntrouvable, db)
    ensures id in db.agents.rows ==>
      && r.outcome == Shown(id, Apply(db.agents.rows[id], input))
      && r.db == db.(agents := db.agents.Put(id, r.outcome.agent))
      && Show(r.db, id) == r.outcome
    ensures db.Valid() ==> r.db.Valid()
  {
    if id !in db.agents.rows then
      Step(ErrorIntrouvable, db)
    else
      var record := Apply(db.agents.rows[id], input);
      var after := db.(agents := db.agents.Put(id, record));
      Integrity.TargetsGrow(db, after);
      Step(Shown(id, record), after)
  }

  /** Two agent updates in turn, as one: a field the later one sends wins, otherwise the earlier one's. */
  function Merge(earlier: AgentInput, later: AgentInput): AgentInput {
    AgentInput(
      later.nom.Or(earlier.nom),
      later.prenom.Or(earlier.prenom),
      later.tel.Or(earlier.tel),
      later.cin.Or(earlier.cin))
  }

  /** An update that sends none of the fields leaves the row as it was. */
  lemma ApplyNothing(prev: Agent)
    ensures Apply(prev, AgentInput(None, None, None, None)) == prev
  {
  }

  /** Applying two updates in turn is applying their merge once. */
  lemma ApplyMerge(prev: Agent, earlier: AgentInput, later: AgentInput)
    ensures Apply(Apply(prev, earlier), later) == Apply(prev, Merge(earlier, later))
  {
  }

  /**
    Uniqueness is checked on create only: giving one agent another agent's
    phone number through update is accepted, and two agents then share it.
   */
  lemma UpdateDuplicatesTel(db: Db, j: int, k: int)
    requires j in db.agents.rows && k in db.agents.rows && j != k
    ensures var r := Update(db, j, AgentInput(None, None, Some(db.agents.rows[k].tel), None));
      && r.outcome.Shown?
      && r.db.agents.rows[j].tel == r.db.agents.rows[k].tel
      && !KeysDistinct(r.db)
  {
  }

  /**
    `destroy`: the message for a missing agent first, then the message naming
    an infraction this agent recorded, and only otherwise the delete.
   */
  function Destroy(db: Db, id: int): (r: Step<AgentReply>)
    ensures r.outcome.MessageIntrouvable? || r.outcome.MessageInInfraction? || r.outcome.MessageSupprimee?
    ensures r.outcome.MessageIntrouvable? <==> id !in db.agents.rows
    ensures id in db.agents.rows ==>
      (r.outcome.MessageInInfraction? <==> exists k :: k in db.infractions.rows && db.infractions.rows[k].agentId == id)
    ensures r.outcome.MessageInInfraction? ==>
      && r.outcome.infractionId in db.infractions.rows
      && db.infractions.rows[r.outcome.infractionId].agentId == id
      && forall k :: k in db.infractions.rows && db.infractions.rows[k].agentId == id ==> r.outcome.infractionId <= k
    ensures !r.outcome.MessageSupprimee? ==> r.db == db
    ensures r.outcome.MessageSupprimee? ==>
      && r.db == db.(agents := db.agents.Remove(id))
      && Show(r.db, id) == ErrorIntrouvable
    ensures db.Valid() ==> r.db.Valid()
  {
    var g := Guard.DestroyTarget<Agent>(db, AgentFk, id);
    assert forall k :: k in db.Referencing(AgentFk, id) <==>
      k in db.infractions.rows && db.infractions.rows[k].agentId == id;
    match g.outcome
    case NotFound => Step(MessageIntrouvable, g.db)
    case Conflict(k) =>
      assert k in db.Referencing(AgentFk, id);
      Step(MessageInInfraction(k), g.db)
    case _ => Step(MessageSupprimee, g.db)
  }
}
