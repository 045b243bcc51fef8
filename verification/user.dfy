/**
  `UserController`: application users with a unique login. Create and the
  partial update check lengths and login uniqueness and store the values as
  sent; delete always succeeds on an existing row. Users are outside the
  infraction reference graph.
 */
module UserController {
  import opened Wrappers
  import opened Text
  import opened Rules
  import opened Tables
  import opened Schema
  import Integrity

  /** The fields of a create or update request; `None` for a field not sent. */
  datatype UserInput = UserInput(nom: Option<string>, prenom: Option<string>, tel: Option<string>,
                                 role: Option<string>, login: Option<string>)

  const UserFields: set<Field> := {Nom, Prenom, Tel, Role, Login}

  /** `unique:users,login,$id`: no user other than `except` has this login. */
  predicate LoginUnusedElsewhere(db: Db, login: string, except: Option<int>) {
    forall k :: k in db.users.rows && Some(k) != except ==> db.users.rows[k].login != login
  }

  /** No two users share a login. */
  predicate LoginsDistinct(db: Db) {
    forall j, k :: j in db.users.rows && k in db.users.rows && j != k ==>
      db.users.rows[j].login != db.users.rows[k].login
  }

  /** The create rule of field `f`. */
  predicate StoreRule(db: Db, input: UserInput, f: Field) {
    match f
    case Nom => RequiredMax(input.nom, 255)
    case Prenom => RequiredMax(input.prenom, 255)
    case Tel => RequiredMax(input.tel, 50)
    case Role => RequiredMax(input.role, 255)
    case Login => RequiredMax(input.login, 50) && LoginUnusedElsewhere(db, input.login.value, None)
    case _ => true
  }

  predicate StoreAccepts(db: Db, input: UserInput) {
    forall f :: f in UserFields ==> StoreRule(db, input, f)
  }

  /** A request every create rule accepts carries all five fields. */
  lemma AcceptedIsComplete(db: Db, input: UserInput)
    requires StoreAccepts(db, input)
    ensures input.nom.Some? && input.prenom.Some? && input.tel.Some? && input.role.Some? && input.login.Some?
  {
    assert StoreRule(db, input, Nom) && StoreRule(db, input, Prenom) && StoreRule(db, input, Tel);
    assert StoreRule(db, input, Role) && StoreRule(db, input, Login);
  }

  /** Inserts `record` under the next auto-increment key. */
  function InsertRow(db: Db, record: User): (r: Step<Outcome<User>>)
    ensures r.outcome == Outcome.Created(db.users.next, record)
    ensures db.users.Valid() ==> db.users.next !in db.users.rows
    ensures r.db.users.rows == db.users.rows[db.users.next := record]
    ensures r.db == db.(users := r.db.users)
    ensures db.Valid() ==> r.db.Valid()
  {
    var after := db.(users := db.users.Insert(record));
    Integrity.TargetsGrow(db, after);
    Step(Outcome.Created(db.users.next, record), after)
  }

  /** `store`: validate, then insert the five fields exactly as sent. */
  function Store(db: Db, input: UserInput): (r: Step<Outcome<User>>)
    ensures r.outcome.Created? || r.outcome.Invalid?
    ensures r.outcome.Invalid? ==> r.db == db && r.outcome.fields != {}
    ensures forall f :: f in r.outcome.Rejected() <==> f in UserFields && !StoreRule(db, input, f)
    ensures r.outcome.Created? ==>
      && input.nom.Some? && input.prenom.Some? && input.tel.Some? && input.role.Some? && input.login.Some?
      && r.outcome.record == User(input.nom.value, input.prenom.value, input.tel.value,
                                  input.role.value, input.login.value)
      && (db.users.Valid() ==> r.outcome.id !in db.users.rows)
      && r.db.users.rows == db.users.rows[r.outcome.id := r.outcome.record]
      && r.db == db.(users := r.db.users)
      && Show(r.db, r.outcome.id) == Found(r.outcome.id, r.outcome.record)
    ensures db.Valid() ==> r.db.Valid()
  {
    if StoreAccepts(db, input) then
      AcceptedIsComplete(db, input);
      InsertRow(db, User(input.nom.value, input.prenom.value, input.tel.value, input.role.value, input.login.value))
    else
      Step(Invalid(Failing(UserFields, f => StoreRule(db, input, f))), db)
  }

  /** `show`. */
  function Show(db: Db, id: int): (r: Outcome<User>)
    ensures r.Found? || r.NotFound?
    ensures r.Found? <==> id in db.users.rows
    ensures r.Found? ==> r.id == id && r.record == db.users.rows[id]
  {
    Find(db.users, id)
  }

  /** The update rule of field `f`: checked only when sent; the login is unique among the other users. */
  predicate UpdateRule(db: Db, id: int, input: UserInput, f: Field) {
    match f
    case Nom => SometimesRequiredMax(input.nom, 255)
    case Prenom => SometimesRequiredMax(input.prenom, 255)
    case Tel => SometimesRequiredMax(input.tel, 50)
    case Role => SometimesRequiredMax(input.role, 255)
    case Login =>
      input.login.None? || (RequiredMax(input.login, 50) && LoginUnusedElsewhere(db, input.login.value, Some(id)))
    case _ => true
  }

  predicate UpdateAccepts(db: Db, id: int, input: UserInput) {
    UpdateRule(db, id, input, Nom) && UpdateRule(db, id, input, Prenom) && UpdateRule(db, id, input, Tel)
    && UpdateRule(db, id, input, Role) && UpdateRule(db, id, input, Login)
  }

  /** `$user->update($request->only([...]))`: the five allow-listed fields, as sent. */
  function Apply(prev: User, input: UserInput): User {
    User(input.nom.GetOr(prev.nom), input.prenom.GetOr(prev.prenom), input.tel.GetOr(prev.tel),
         input.role.GetOr(prev.role), input.login.GetOr(prev.login))
  }

  /** Two user updates in turn, as one: a field the later one sends wins, otherwise the earlier one's. */
  function Merge(earlier: UserInput, later: UserInput): UserInput {
    UserInput(
      later.nom.Or(earlier.nom),
      later.prenom.Or(earlier.prenom),
      later.tel.Or(earlier.tel),
      later.role.Or(earlier.role),
      later.login.Or(earlier.login))
  }

  /** An update that sends none of the fields leaves the row as it was. */
  lemma ApplyNothing(prev: User)
    ensures Apply(prev, UserInput(None, None, None, None, None)) == prev
  {
  }

  /** Applying two updates in turn is applying their merge once. */
  lemma ApplyMerge(prev: User, earlier: UserInput, later: UserInput)
    ensures Apply(Apply(prev, earlier), later) == Apply(prev, Merge(earlier, later))
  {
  }

  /** Writes `record` over row `id`. */
  function PutRow(db: Db, id: int, record: User): (r: Step<Outcome<User>>)
    requires id in db.users.rows
    ensures r.outcome == Updated(id, record)
    ensures r.db == db.(users := db.users.Put(id, record))
    ensures db.Valid() ==> r.db.Valid()
  {
    var after := db.(users := db.users.Put(id, record));
    Integrity.TargetsGrow(db, after);
    Step(Updated(id, record), after)
  }

  /** `update`: 404 before any validation, then the sent fields are checked and written. */
  function Update(db: Db, id: int, input: UserInput): (r: Step<Outcome<User>>)
    ensures id !in db.users.rows ==> r == Step(NotFound, db)
    ensures id in db.users.rows ==> r.outcome.Updated? || r.outcome.Invalid?
    ensures r.outcome.Invalid? ==> r.db == db && r.outcome.fields != {}
    ensures id in db.users.rows ==>
      forall f :: f in r.outcome.Rejected() <==> f in UserFields && !UpdateRule(db, id, input, f)
    ensures r.outcome.Updated? ==>
      && r.outcome.id == id
      && r.outcome.record == Apply(db.users.rows[id], input)
      && r.db == db.(users := db.users.Put(id, r.outcome.record))
      && Show(r.db, id) == Found(id, r.outcome.record)
    ensures db.Valid() ==> r.db.Valid()
  {
    if id !in db.users.rows then
      Step(NotFound, db)
    else if UpdateAccepts(db, id, input) then
      PutRow(db, id, Apply(db.users.rows[id], input))
    else
      Step(Invalid(Failing(UserFields, f => UpdateRule(db, id, input, f))), db)
  }

  /** A create never gives a second user a login already in use. */
  lemma StoreKeepsLoginsDistinct(db: Db, input: UserInput)
    requires db.users.Valid() && LoginsDistinct(db)
    ensures LoginsDistinct(Store(db, input).db)
  {
    var r := Store(db, input);
    if r.outcome.Created? {
      assert StoreRule(db, input, Login);
      AcceptedIsComplete(db, input);
      var rows := r.db.users.rows;
      forall j, k | j in rows && k in rows && j != k
        ensures rows[j].login != rows[k].login
      {
        if j == r.outcome.id {
          assert db.users.rows[k].login != input.login.value;
        } else if k == r.outcome.id {
          assert db.users.rows[j].login != input.login.value;
        }
      }
    }
  }

  /** An update never gives a user a login another user holds. */
  lemma UpdateKeepsLoginsDistinct(db: Db, id: int, input: UserInput)
    requires LoginsDistinct(db)
    ensures LoginsDistinct(Update(db, id, input).db)
  {
    var r := Update(db, id, input);
    if r.outcome.Updated? {
      assert UpdateRule(db, id, input, Login);
      var rows := r.db.users.rows;
      forall j, k | j in rows && k in rows && j != k
        ensures rows[j].login != rows[k].login
      {
        if j == id {
          assert db.users.rows[k].login != rows[j].login;
        } else if k == id {
          assert db.users.rows[j].login != rows[k].login;
        }
      }
    }
  }

  /** Sending back one's own login is accepted. */
  lemma UpdateOwnLoginAccepted(db: Db, id: int)
    requires id in db.users.rows && LoginsDistinct(db)
    requires !Blank(db.users.rows[id].login) && |db.users.rows[id].login| <= 50
    ensures Update(db, id, UserInput(None, None, None, None, Some(db.users.rows[id].login))).outcome
      == Updated(id, db.users.rows[id])
  {
    assert LoginUnusedElsewhere(db, db.users.rows[id].login, Some(id));
  }

  /** `destroy`: 404 for a missing row, otherwise the user is removed; nothing refers to users. */
  function Destroy(db: Db, id: int): (r: Step<Outcome<User>>)
    ensures r.outcome.NotFound? || r.outcome.Deleted?
    ensures r.outcome.NotFound? <==> id !in db.users.rows
    ensures r.outcome.NotFound? ==> r.db == db
    ensures r.outcome.Deleted? ==>
      && r.db == db.(users := db.users.Remove(id))
      && Show(r.db, id) == NotFound
    ensures db.Valid() ==> r.db.Valid()
  {
    if id !in db.users.rows then
      Step(NotFound, db)
    else
      var after := db.(users := db.users.Remove(id));
      Integrity.TargetsGrow(db, after);
      Step(Deleted, after)
  }
}
