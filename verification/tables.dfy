/**
  One database table: its rows by primary key and the auto-increment counter
  that hands out the next key. Keys are never reused after a delete.
 */
module Tables {
  import opened Wrappers

  datatype Table<R> = Table(rows: map<int, R>, next: int) {

    /** Every key was handed out by the counter, which starts at 1. */
    predicate Valid() {
      next >= 1 && forall k :: k in rows ==> 1 <= k < next
    }

    /** Adds `r` under the next key. */
    function Insert(r: R): (t: Table<R>)
      ensures t.rows == rows[next := r] && t.next == next + 1
      ensures Valid() ==> t.Valid() && next !in rows
    {
      Table(rows[next := r], next + 1)
    }

    /** Replaces the row under `id`. */
    function Put(id: int, r: R): (t: Table<R>)
      requires id in rows
      ensures t.rows.Keys == rows.Keys && t.rows[id] == r && t.next == next
      ensures forall k :: k in rows && k != id ==> t.rows[k] == rows[k]
      ensures Valid() ==> t.Valid()
    {
      Table(rows[id := r], next)
    }

    /** Drops the row under `id`. */
    function Remove(id: int): (t: Table<R>)
      ensures t.rows.Keys == rows.Keys - {id} && t.next == next
      ensures forall k :: k in t.rows ==> t.rows[k] == rows[k]
      ensures Valid() ==> t.Valid()
    {
      Table(rows - {id}, next)
    }
  }

  /** Removing the row just inserted restores the rows; only the counter has moved on. */
  lemma RemoveInserted<R>(t: Table<R>, r: R)
    requires t.Valid()
    ensures t.Insert(r).Remove(t.next) == Table(t.rows, t.next + 1)
  {
    assert t.Insert(r).Remove(t.next).rows == t.rows;
  }

  function EmptyTable<R>(): (t: Table<R>)
    ensures t.Valid() && t.rows == map[] && t.next == 1
  {
    Table(map[], 1)
  }

  /** A finite set of keys holding `y` has a least element. */
  lemma {:induction false} MinExists(s: set<int>, y: int)
    requires y in s
    ensures exists m :: m in s && forall x :: x in s ==> m <= x
    decreases s
  {
    var rest := s - {y};
    if exists x :: x in rest && x < y {
      var x :| x in rest && x < y;
      MinExists(rest, x);
      var m :| m in rest && forall z :: z in rest ==> m <= z;
      assert forall z :: z in s ==> z == y || z in rest;
    } else {
      assert forall z :: z in s ==> z == y || z in rest;
    }
  }

  /**
    The row an unordered `firstWhere` query returns, taken to be the one with
    the smallest key; `None` when no row matches.
   */
  function First(keys: set<int>): (r: Option<int>)
    ensures r.None? <==> forall k :: k !in keys
    ensures r.Some? ==> r.value in keys && forall k :: k in keys ==> r.value <= k
  {
    if exists k :: k in keys then
      assert exists m :: m in keys && forall x :: x in keys ==> m <= x by {
        var k :| k in keys;
        MinExists(keys, k);
      }
      var m :| m in keys && forall x :: x in keys ==> m <= x;
      Some(m)
    else
      None
  }
}
