/**
  `ViolantController`: an offender has a name, a first name and a national
  identity number (CIN) of at most 12 characters from `[A-Z0-9]`, unique among
  offenders. Create trims and normalises; update checks uniqueness against the
  other rows only; delete is refused while an infraction names the offender.
 */
module ViolantController {
  import opened Wrappers
  import opened Text
  import opened Rules
  import opened Tables
  import opened Schema
  import Integrity
  import Guard

  /** The fields of a create or update request; `None` for a field not sent. */
  datatype ViolantInput = ViolantInput(nom: Option<string>, prenom: Option<string>, cin: Option<string>)

  const ViolantFields: set<Field> := {Nom, Prenom, Cin}

  /** `unique:violant,cin`: no stored offender has this CIN. */
  predicate CinUnused(db: Db, cin: string) {
    forall k :: k in db.violants.rows ==> db.violants.rows[k].cin != cin
  }

  /** `unique:violant,cin,$id`: no offender other than `id` has this CIN. */
  predicate CinUnusedElsewhere(db: Db, cin: string, id: int) {
    forall k :: k in db.violants.rows && k != id ==> db.violants.rows[k].cin != cin
  }

  /** No two offenders share a CIN. */
  predicate CinsDistinct(db: Db) {
    forall j, k :: j in db.violants.rows && k in db.violants.rows && j != k ==>
      db.violants.rows[j].cin != db.violants.rows[k].cin
  }

  /** The create rule of field `f`; the CIN rules see the value as sent. */
  predicate StoreRule(db: Db, input: ViolantInput, f: Field) {
    match f
    case Nom => RequiredLength(input.nom, 2, 50)
    case Prenom => RequiredLength(input.prenom, 2, 50)
    case Cin =>
      && RequiredMax(input.cin, 12)
      && CinUnused(db, input.cin.value)
      && MatchesCinPattern(input.cin.value)
    case _ => true
  }

  predicate StoreAccepts(db: Db, input: ViolantInput) {
    StoreRule(db, input, Nom) && StoreRule(db, input, Prenom) && StoreRule(db, input, Cin)
  }

  /** The row `Violant::create` writes. */
  function NewRow(input: ViolantInput): Violant
    requires input.nom.Some? && input.prenom.Some? && input.cin.Some?
  {
    Violant(Trim(input.nom.value), Trim(input.prenom.value), NormaliseCin(input.cin.value))
  }

  /** Inserts `record` under the next auto-increment key. */
  function InsertRow(db: Db, record: Violant): (r: Step<Outcome<Violant>>)
    ensures r.outcome == Outcome.Created(db.violants.next, record)
    ensures db.violants.Valid() ==> db.violants.next !in db.violants.rows
    ensures r.db.violants.rows == db.violants.rows[db.violants.next := record]
    ensures r.db == db.(violants := r.db.violants)
    ensures db.Valid() ==> r.db.Valid()
  {
    var after := db.(violants := db.violants.Insert(record));
    Integrity.TargetsGrow(db, after);
    Step(Outcome.Created(db.violants.next, record), after)
  }

  /** `store`: validate, then insert the trimmed names and the normalised CIN. */
  function Store(db: Db, input: ViolantInput): (r: Step<Outcome<Violant>>)
    ensures r.outcome.Created? || r.outcome.Invalid?
    ensures r.outcome.Invalid? ==> r.db == db && r.outcome.fields != {}
    ensures forall f :: f in r.outcome.Rejected() <==> f in ViolantFields && !StoreRule(db, input, f)
    ensures r.outcome.Created? ==>
      && input.nom.Some? && input.prenom.Some? && input.cin.Some?
      && r.outcome.record == NewRow(input)
      && IsCinWord(r.outcome.record.cin) && |r.outcome.record.cin| <= 12
      && (db.violants.Valid() ==> r.outcome.id !in db.violants.rows)
      && r.db.violants.rows == db.violants.rows[r.outcome.id := r.outcome.record]
      && r.db == db.(violants := r.db.violants)
      && Show(r.db, r.outcome.id) == Found(r.outcome.id, r.outcome.record)
    ensures db.Valid() ==> r.db.Valid()
  {
    if StoreAccepts(db, input) then
      NormaliseCinOfMatch(input.cin.value);
      InsertRow(db, NewRow(input))
    else
      Step(Invalid(Failing(ViolantFields, f => StoreRule(db, input, f))), db)
  }

  /** `show`. */
  function Show(db: Db, id: int): (r: Outcome<Violant>)
    ensures r.Found? || r.NotFound?
    ensures r.Found? <==> id in db.violants.rows
    ensures r.Found? ==> r.id == id && r.record == db.violants.rows[id]
  {
    Find(db.violants, id)
  }

  /**
    The update rule of field `f`. None of them is `required`, so a blank value
    skips every rule and passes; the CIN is unique among the other rows.
   */
  predicate UpdateRule(db: Db, id: int, input: ViolantInput, f: Field) {
    match f
    case Nom => SometimesLength(input.nom, 2, 50)
    case Prenom => SometimesLength(input.prenom, 2, 50)
    case Cin =>
      || input.cin.None?
      || Blank(input.cin.value)
      || (&& |input.cin.value| <= 12
          && CinUnusedElsewhere(db, input.cin.value, id)
          && MatchesCinPattern(input.cin.value))
    case _ => true
  }

  predicate UpdateAccepts(db: Db, id: int, input: ViolantInput) {
    UpdateRule(db, id, input, Nom) && UpdateRule(db, id, input, Prenom) && UpdateRule(db, id, input, Cin)
  }

  /**
    `$violant->update($request->only(['nom', 'prenom', 'cin']))`: the names
    are written as sent, untrimmed; a sent CIN is normalised.
   */
  function Apply(prev: Violant, input: ViolantInput): Violant {
    Violant(input.nom.GetOr(prev.nom), input.prenom.GetOr(prev.prenom),
            if input.cin.Some? then NormaliseCin(input.cin.value) else prev.cin)
  }

  /** Two offender updates in turn, as one: a field the later one sends wins, otherwise the earlier one's. */
  function Merge(earlier: ViolantInput, later: ViolantInput): ViolantInput {
    ViolantInput(
      later.nom.Or(earlier.nom),
      later.prenom.Or(earlier.prenom),
      later.cin.Or(earlier.cin))
  }

  /** An update that sends none of the fields leaves the row as it was. */
  lemma ApplyNothing(prev: Violant)
    ensures Apply(prev, ViolantInput(None, None, None)) == prev
  {
  }

  /** Applying two updates in turn is applying their merge once. */
  lemma ApplyMerge(prev: Violant, earlier: ViolantInput, later: ViolantInput)
    ensures Apply(Apply(prev, earlier), later) == Apply(prev, Merge(earlier, later))
  {
  }

  /** Writes `record` over row `id`. */
  function PutRow(db: Db, id: int, record: Violant): (r: Step<Outcome<Violant>>)
    requires id in db.violants.rows
    ensures r.outcome == Updated(id, record)
    ensures r.db == db.(violants := db.violants.Put(id, record))
    ensures db.Valid() ==> r.db.Valid()
  {
    var after := db.(violants := db.violants.Put(id, record));
    Integrity.TargetsGrow(db, after);
    Step(Updated(id, record), after)
  }

  /** `update`: 404 before any validation, then the sent fields are checked and written. */
  function Update(db: Db, id: int, input: ViolantInput): (r: Step<Outcome<Violant>>)
    ensures id !in db.violants.rows ==> r == Step(NotFound, db)
    ensures id in db.violants.rows ==> r.outcome.Updated? || r.outcome.Invalid?
    ensures r.outcome.Invalid? ==> r.db == db && r.outcome.fields != {}
    ensures id in db.violants.rows ==>
      forall f :: f in r.outcome.Rejected() <==> f in ViolantFields && !UpdateRule(db, id, input, f)
    ensures r.outcome.Updated? ==>
      && r.outcome.id == id
      && r.outcome.record == Apply(db.violants.rows[id], input)
      && r.db == db.(violants := db.violants.Put(id, r.outcome.record))
      && Show(r.db, id) == Found(id, r.outcome.record)
    ensures db.Valid() ==> r.db.Valid()
  {
    if id !in db.violants.rows then
      Step(NotFound, db)
    else if UpdateAccepts(db, id, input) then
      PutRow(db, id, Apply(db.violants.rows[id], input))
    else
      Step(Invalid(Failing(ViolantFields, f => UpdateRule(db, id, input, f))), db)
  }

  /** `s` does not end in a line feed. */
  predicate NoFinalNewline(s: string) {
    |s| == 0 || s[|s| - 1] != '\n'
  }

  /**
    A create keeps CINs distinct as long as the CIN sent does not end in a line
    feed: the pattern then only admits values that normalisation leaves alone,
    so the value checked for uniqueness is the value stored.
   */
  lemma StoreKeepsCinsDistinct(db: Db, input: ViolantInput)
    requires db.violants.Valid() && CinsDistinct(db)
    requires input.cin.Some? ==> NoFinalNewline(input.cin.value)
    ensures CinsDistinct(Store(db, input).db)
  {
    var r := Store(db, input);
    if r.outcome.Created? {
      assert StoreRule(db, input, Cin);
      NormaliseCinIdentity(input.cin.value);
      assert r.outcome.record.cin == input.cin.value;
      var rows := r.db.violants.rows;
      forall j, k | j in rows && k in rows && j != k
        ensures rows[j].cin != rows[k].cin
      {
        if j == r.outcome.id {
          assert db.violants.rows[k].cin != input.cin.value;
        } else if k == r.outcome.id {
          assert db.violants.rows[j].cin != input.cin.value;
        }
      }
    }
  }

  /** A name `store` accepts and keeps as sent: 2 to 50 characters, neither end a blank. */
  predicate PlainName(s: string) {
    2 <= |s| <= 50 && !IsTrimChar(s[0]) && !IsTrimChar(s[|s| - 1])
  }

  /** A plain name passes the length rule and is its own trim. */
  lemma NameAccepted(nom: string)
    requires PlainName(nom)
    ensures RequiredLength(Some(nom), 2, 50) && Trim(nom) == nom
  {
    TrimOfTrimmed(nom);
  }

  /**
    The uniqueness rule sees the CIN before it is trimmed. Take any offender
    `j` whose CIN `w` is a `[A-Z0-9]+` word of at most 11 characters, "AB1"
    say. Then `w` followed by a line feed, "AB1\n", passes the pattern and is
    unused. Yet it is stored as `w`, next to offender `j`.
   */
  lemma StoreDuplicatesCinWithFinalNewline(db: Db, j: int, nom: string, prenom: string)
    requires db.violants.Valid() && j in db.violants.rows
    requires IsCinWord(db.violants.rows[j].cin) && |db.violants.rows[j].cin| <= 11
    requires CinUnused(db, db.violants.rows[j].cin + "\n")
    requires PlainName(nom) && PlainName(prenom)
    ensures var w := db.violants.rows[j].cin;
      var r := Store(db, ViolantInput(Some(nom), Some(prenom), Some(w + "\n")));
      && r.outcome.Created?
      && r.outcome.record == Violant(nom, prenom, w)
      && r.outcome.id != j
      && r.db.violants.rows[r.outcome.id].cin == r.db.violants.rows[j].cin
      && !CinsDistinct(r.db)
  {
    var w := db.violants.rows[j].cin;
    var input := ViolantInput(Some(nom), Some(prenom), Some(w + "\n"));
    NewlineCinAccepted(db, w, nom, prenom);
    var r := Store(db, input);
    assert r == InsertRow(db, Violant(nom, prenom, w));
    assert r.db.violants.rows[j] == db.violants.rows[j];
  }

  /** The request of the lemma above passes every create rule, and its row holds `w`. */
  lemma NewlineCinAccepted(db: Db, w: string, nom: string, prenom: string)
    requires IsCinWord(w) && |w| <= 11 && CinUnused(db, w + "\n")
    requires PlainName(nom) && PlainName(prenom)
    ensures var input := ViolantInput(Some(nom), Some(prenom), Some(w + "\n"));
      StoreAccepts(db, input) && NewRow(input) == Violant(nom, prenom, w)
  {
    var input := ViolantInput(Some(nom), Some(prenom), Some(w + "\n"));
    assert StoreRule(db, input, Nom) by { NameAccepted(nom); }
    assert StoreRule(db, input, Prenom) by { NameAccepted(prenom); }
    assert StoreRule(db, input, Cin) by { NormaliseDropsFinalNewline(w); }
    assert NewRow(input) == Violant(nom, prenom, w) by {
      NameAccepted(nom);
      NameAccepted(prenom);
      NormaliseDropsFinalNewline(w);
    }
  }

  /**
    An update keeps CINs distinct as long as the CIN sent is neither blank nor
    ends in a line feed.
   */
  lemma UpdateKeepsCinsDistinct(db: Db, id: int, input: ViolantInput)
    requires CinsDistinct(db)
    requires input.cin.Some? ==> !Blank(input.cin.value) && NoFinalNewline(input.cin.value)
    ensures CinsDistinct(Update(db, id, input).db)
  {
    var r := Update(db, id, input);
    if r.outcome.Updated? {
      assert UpdateRule(db, id, input, Cin);
      var rows := r.db.violants.rows;
      if input.cin.Some? {
        NormaliseCinIdentity(input.cin.value);
      }
      forall j, k | j in rows && k in rows && j != k
        ensures rows[j].cin != rows[k].cin
      {
        if j == id {
          assert db.violants.rows[k].cin != rows[j].cin;
        } else if k == id {
          assert db.violants.rows[j].cin != rows[k].cin;
        }
      }
    }
  }

  /**
    A blank CIN passes every update rule and is stored as the empty string, so
    two offenders updated this way end up sharing a CIN.
   */
  lemma UpdateDuplicatesBlankCin(db: Db, j: int, k: int)
    requires j in db.violants.rows && k in db.violants.rows && j != k
    requires db.violants.rows[k].cin == ""
    ensures var r := Update(db, j, ViolantInput(None, None, Some(" ")));
      && r.outcome.Updated?
      && r.db.violants.rows[j].cin == r.db.violants.rows[k].cin == ""
      && !CinsDistinct(r.db)
  {
    assert Blank(" ");
    assert Trim(" ") == "";
  }

  /** Sending back one's own CIN is accepted and changes nothing. */
  lemma UpdateOwnCinAccepted(db: Db, id: int)
    requires id in db.violants.rows && CinsDistinct(db)
    requires IsCinWord(db.violants.rows[id].cin) && |db.violants.rows[id].cin| <= 12
    ensures var r := Update(db, id, ViolantInput(None, None, Some(db.violants.rows[id].cin)));
      r.outcome == Updated(id, db.violants.rows[id])
  {
    var cin := db.violants.rows[id].cin;
    NormaliseCinIdentity(cin);
    assert CinUnusedElsewhere(db, cin, id);
    assert Apply(db.violants.rows[id], ViolantInput(None, None, Some(cin))) == db.violants.rows[id];
  }

  /** A lowercase CIN is refused on update, with an error on `cin` only, and nothing changes. */
  lemma UpdateRejectsLowercaseCin(db: Db, id: int)
    requires id in db.violants.rows
    ensures Update(db, id, ViolantInput(None, None, Some("ab123456"))) == Step(Invalid({Cin}), db)
  {
    assert !IsCinChar("ab123456"[0]);
    assert !Blank("ab123456") by {
      assert !IsTrimChar("ab123456"[0]);
      BlankIffAllTrimChars("ab123456");
    }
    assert !MatchesCinPattern("ab123456");
    assert Update(db, id, ViolantInput(None, None, Some("ab123456"))).outcome.Rejected() == {Cin};
  }

  /** `destroy`: 404 first, then 409 while an infraction has this `violant_id`. */
  function Destroy(db: Db, id: int): (r: Step<Outcome<Violant>>)
    ensures r.outcome.NotFound? || r.outcome.Conflict? || r.outcome.Deleted?
    ensures r.outcome.NotFound? <==> id !in db.violants.rows
    ensures id in db.violants.rows ==>
      (r.outcome.Conflict? <==> exists k :: k in db.infractions.rows && db.infractions.rows[k].violantId == id)
    ensures r.outcome.Conflict? ==>
      && r.outcome.refId in db.infractions.rows
      && db.infractions.rows[r.outcome.refId].violantId == id
      && forall k :: k in db.infractions.rows && db.infractions.rows[k].violantId == id ==> r.outcome.refId <= k
    ensures !r.outcome.Deleted? ==> r.db == db
    ensures r.outcome.Deleted? ==>
      && r.db == db.(violants := db.violants.Remove(id))
      && Show(r.db, id) == NotFound
    ensures db.Valid() ==> r.db.Valid()
  {
    var r := Guard.DestroyTarget(db, ViolantFk, id);
    assert r.outcome.Conflict? ==> r.outcome.refId in db.Referencing(ViolantFk, id);
    assert forall k :: k in db.Referencing(ViolantFk, id) <==>
      k in db.infractions.rows && db.infractions.rows[k].violantId == id;
    r
  }
}
