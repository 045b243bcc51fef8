/**
  The single-table writes the controllers perform, and the conditions under
  which each keeps the store valid: auto-increment counters sound and every
  foreign key of an infraction or a decision naming an existing row.
 */
module Integrity {
  import opened Tables
  import opened Schema

  /** Adding an infraction whose four references exist keeps the store valid. */
  lemma InsertInfraction(db: Db, inf: Infraction)
    ensures db.Valid() && db.RefsExist(inf) ==> db.(infractions := db.infractions.Insert(inf)).Valid()
  {
    if db.Valid() && db.RefsExist(inf) {
      var after := db.(infractions := db.infractions.Insert(inf));
      forall k | k in after.infractions.rows
        ensures after.RefsExist(after.infractions.rows[k])
      {
        if k != db.infractions.next {
          assert after.infractions.rows[k] == db.infractions.rows[k];
        }
      }
      forall k | k in after.decisions.rows
        ensures after.decisions.rows[k].infractionId in after.infractions.rows
      {
        assert db.decisions.rows[k].infractionId in db.infractions.rows;
      }
    }
  }

  /** Rewriting an infraction so that its references exist keeps the store valid. */
  lemma PutInfraction(db: Db, id: int, inf: Infraction)
    requires id in db.infractions.rows
    ensures db.Valid() && db.RefsExist(inf) ==> db.(infractions := db.infractions.Put(id, inf)).Valid()
  {
    if db.Valid() && db.RefsExist(inf) {
      var after := db.(infractions := db.infractions.Put(id, inf));
      forall k | k in after.infractions.rows
        ensures after.RefsExist(after.infractions.rows[k])
      {
        if k != id {
          assert after.infractions.rows[k] == db.infractions.rows[k];
        }
      }
      forall k | k in after.decisions.rows
        ensures after.decisions.rows[k].infractionId in after.infractions.rows
      {
        assert db.decisions.rows[k].infractionId in db.infractions.rows;
      }
    }
  }

  /** Removing an infraction no decision refers to keeps the store valid. */
  lemma RemoveInfraction(db: Db, id: int)
    ensures db.Valid() && (forall k :: k !in db.DecisionsOn(id)) ==>
              db.(infractions := db.infractions.Remove(id)).Valid()
  {
    if db.Valid() && (forall k :: k !in db.DecisionsOn(id)) {
      var after := db.(infractions := db.infractions.Remove(id));
      forall k | k in after.decisions.rows
        ensures after.decisions.rows[k].infractionId in after.infractions.rows
      {
        assert k !in db.DecisionsOn(id);
        assert db.decisions.rows[k].infractionId in db.infractions.rows;
      }
    }
  }

  /** Adding or rewriting a decision whose infraction exists keeps the store valid. */
  lemma InsertDecision(db: Db, d: Decision)
    ensures db.Valid() && d.infractionId in db.infractions.rows ==>
              db.(decisions := db.decisions.Insert(d)).Valid()
  {
    if db.Valid() && d.infractionId in db.infractions.rows {
      var after := db.(decisions := db.decisions.Insert(d));
      forall k | k in after.decisions.rows
        ensures after.decisions.rows[k].infractionId in after.infractions.rows
      {
        if k != db.decisions.next {
          assert after.decisions.rows[k] == db.decisions.rows[k];
        }
      }
    }
  }

  lemma PutDecision(db: Db, id: int, d: Decision)
    requires id in db.decisions.rows
    ensures db.Valid() && d.infractionId in db.infractions.rows ==>
              db.(decisions := db.decisions.Put(id, d)).Valid()
  {
    if db.Valid() && d.infractionId in db.infractions.rows {
      var after := db.(decisions := db.decisions.Put(id, d));
      forall k | k in after.decisions.rows
        ensures after.decisions.rows[k].infractionId in after.infractions.rows
      {
        if k != id {
          assert after.decisions.rows[k] == db.decisions.rows[k];
        }
      }
    }
  }

  /** Decisions are leaves: removing one always keeps the store valid. */
  lemma RemoveDecision(db: Db, id: int)
    ensures db.Valid() ==> db.(decisions := db.decisions.Remove(id)).Valid()
  {
  }

  /** Removing a commune, violant, agent or categorie no infraction refers to keeps the store valid. */
  lemma RemoveTarget(db: Db, fk: Fk, id: int)
    ensures db.Valid() && (forall k :: k !in db.Referencing(fk, id)) ==> db.Drop(fk, id).Valid()
  {
    if db.Valid() && (forall k :: k !in db.Referencing(fk, id)) {
      var after := db.Drop(fk, id);
      forall k | k in after.infractions.rows
        ensures after.RefsExist(after.infractions.rows[k])
      {
        assert k !in db.Referencing(fk, id);
        assert db.RefsExist(db.infractions.rows[k]);
      }
    }
  }

  /**
    A write that leaves infractions and decisions alone and removes no commune,
    violant, agent or categorie keeps every reference intact.
   */
  lemma TargetsGrow(db: Db, after: Db)
    requires after.infractions == db.infractions && after.decisions == db.decisions
    requires db.communes.rows.Keys <= after.communes.rows.Keys
    requires db.violants.rows.Keys <= after.violants.rows.Keys
    requires db.agents.rows.Keys <= after.agents.rows.Keys
    requires db.categories.rows.Keys <= after.categories.rows.Keys
    ensures db.Integrity() ==> after.Integrity()
  {
    if db.Integrity() {
      forall k | k in after.infractions.rows
        ensures after.RefsExist(after.infractions.rows[k])
      {
        assert db.RefsExist(db.infractions.rows[k]);
      }
    }
  }

  /**
    In a store with referential integrity no infraction refers to a commune,
    violant, agent or categorie that does not exist, so a delete that reports
    a missing row first never hides a conflict.
   */
  lemma NothingReferencesMissing(db: Db, fk: Fk, id: int)
    requires db.Integrity() && id !in db.Targets(fk)
    ensures forall k :: k !in db.Referencing(fk, id)
  {
    forall k | k in db.infractions.rows
      ensures db.infractions.rows[k].Ref(fk) != id
    {
      assert db.RefsExist(db.infractions.rows[k]);
    }
  }

  /** Likewise no decision is recorded against an infraction that does not exist. */
  lemma NoDecisionOnMissing(db: Db, id: int)
    requires db.Integrity() && id !in db.infractions.rows
    ensures forall k :: k !in db.DecisionsOn(id)
  {
  }
}
