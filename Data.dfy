/**
 * The Employee table as the controller and the seeding routine see it: its rows in
 * clustered-key order (ascending id) and the next value of the IDENTITY(1,1) column.
 */
module Data {
  import opened Models

  /** Ids strictly increase along the rows, so no id occurs twice. */
  ghost predicate Ascending(rows: seq<Employee>)
  {
    forall i, j | 0 <= i < j < |rows| :: rows[i].id < rows[j].id
  }

  /** The position of the row whose ID field is `id`, or -1 when no row has that id. */
  function IndexOf(rows: seq<Employee>, id: int): (p: int)
    ensures -1 <= p < |rows|
    ensures p >= 0 ==> rows[p].id == id
    ensures p == -1 <==> forall i | 0 <= i < |rows| :: rows[i].id != id
  {
    if rows == [] then -1
    else if rows[0].id == id then 0
    else
      var p := IndexOf(rows[1..], id);
      assert p == -1 ==> forall i | 1 <= i < |rows| :: rows[i].id != id by {
        if p == -1 {
          forall i | 1 <= i < |rows| ensures rows[i].id != id {
            assert rows[i] == rows[1..][i - 1];
          }
        }
      }
      if p == -1 then -1 else p + 1
  }

  /** The row whose ID field is `id`, if any (the query behind `SingleOrDefaultAsync`). */
  function Lookup(rows: seq<Employee>, id: int): (r: Option<Employee>)
    ensures r.Some? ==> r.value in rows && r.value.id == id
    ensures r.None? <==> forall i | 0 <= i < |rows| :: rows[i].id != id
  {
    var p := IndexOf(rows, id);
    if p == -1 then None else Some(rows[p])
  }

  /** The table's rows together with the identity counter. */
  datatype Db = Db(rows: seq<Employee>, nextId: int) {

    /** Ids are unique, ascending, positive and below the identity counter. */
    ghost predicate Valid()
    {
      && 1 <= nextId
      && Ascending(rows)
      && forall i | 0 <= i < |rows| :: 1 <= rows[i].id < nextId
    }

    /** `SingleOrDefaultAsync(m => m.ID == id)` on this table. */
    function Find(id: int): Option<Employee>
    {
      Lookup(rows, id)
    }

    /** `Add` of an entity whose key is unassigned, then `SaveChanges`: a row with a fresh id. */
    function Inserted(lastName: string, firstName: string): (d: Db)
      requires Valid()
      ensures d.Valid() && d.nextId == nextId + 1
      ensures d.rows == rows + [Employee(nextId, lastName, firstName)]
    {
      Db(rows + [Employee(nextId, lastName, firstName)], nextId + 1)
    }

    /** `SaveChanges` after the tracked row `e.id` was given new field values. */
    function Updated(e: Employee): (d: Db)
      requires Valid()
      ensures d.Valid() && d.nextId == nextId && |d.rows| == |rows|
    {
      var p := IndexOf(rows, e.id);
      if p == -1 then this else Db(rows[p := e], nextId)
    }

    /** `Remove` of the row `id`, then `SaveChanges`. */
    function Removed(id: int): (d: Db)
      requires Valid()
      ensures d.Valid() && d.nextId == nextId
      ensures |d.rows| == if Find(id).Some? then |rows| - 1 else |rows|
    {
      var p := IndexOf(rows, id);
      if p == -1 then this
      else
        var d := Db(rows[..p] + rows[p + 1..], nextId);
        assert forall i | 0 <= i < |d.rows| :: d.rows[i] == rows[if i < p then i else i + 1];
        d
    }
  }

  /** Because ids are ascending, the query behind `SingleOrDefaultAsync` never sees two matches. */
  lemma AtMostOneMatch(db: Db, i: int, j: int)
    requires db.Valid()
    requires 0 <= i < |db.rows| && 0 <= j < |db.rows| && db.rows[i].id == db.rows[j].id
    ensures i == j
  {
  }

  /** In a valid table the row found for `id` is the only row with that id. */
  lemma FindIsTheRow(db: Db, id: int, i: int)
    requires db.Valid() && 0 <= i < |db.rows| && db.rows[i].id == id
    ensures db.Find(id) == Some(db.rows[i])
  {
  }

  lemma {:induction false} LookupAppend(rows: seq<Employee>, e: Employee, k: int)
    ensures Lookup(rows + [e], k) == if Lookup(rows, k).Some? then Lookup(rows, k)
                                     else if e.id == k then Some(e) else None
  {
    if rows == [] {
      assert rows + [e] == [e];
      assert [e][1..] == [];
    } else {
      assert (rows + [e])[1..] == rows[1..] + [e];
      LookupAppend(rows[1..], e, k);
    }
  }

  /** Inserting gives the fresh id its new row and leaves every other id's row as it was. */
  lemma FindAfterInsert(db: Db, lastName: string, firstName: string, k: int)
    requires db.Valid()
    ensures db.Find(db.nextId).None?
    ensures db.Inserted(lastName, firstName).Find(k)
         == if k == db.nextId then Some(Employee(db.nextId, lastName, firstName)) else db.Find(k)
  {
    LookupAppend(db.rows, Employee(db.nextId, lastName, firstName), k);
  }

  /** Updating row `e.id` changes what that id finds to `e` and nothing else. */
  lemma FindAfterUpdate(db: Db, e: Employee, k: int)
    requires db.Valid() && db.Find(e.id).Some?
    ensures db.Updated(e).Find(k) == if k == e.id then Some(e) else db.Find(k)
  {
    var d := db.Updated(e);
    var r := db.Find(e.id);
    var p :| 0 <= p < |db.rows| && db.rows[p] == r.value;
    assert d.rows[p] == e;
    if k == e.id {
      FindIsTheRow(d, k, p);
    } else {
      var before := db.Find(k);
      if before.Some? {
        var q :| 0 <= q < |db.rows| && db.rows[q] == before.value;
        assert d.rows[q] == before.value;
        FindIsTheRow(d, k, q);
      } else {
        assert forall i | 0 <= i < |d.rows| :: d.rows[i].id != k;
      }
    }
  }

  /** Removing row `id` makes that id find nothing and leaves every other id's row as it was. */
  lemma FindAfterRemove(db: Db, id: int, k: int)
    requires db.Valid()
    ensures db.Removed(id).Find(k) == if k == id then None else db.Find(k)
  {
    var d := db.Removed(id);
    if k == id {
      assert forall i | 0 <= i < |d.rows| :: d.rows[i].id != k by {
        forall i | 0 <= i < |d.rows| ensures d.rows[i].id != k {
          assert d.rows[i] in d.rows;
        }
      }
    } else {
      var before := db.Find(k);
      if before.Some? {
        assert before.value in d.rows;
        var q :| 0 <= q < |d.rows| && d.rows[q] == before.value;
        FindIsTheRow(d, k, q);
      } else {
        assert forall i | 0 <= i < |d.rows| :: d.rows[i].id != k by {
          forall i | 0 <= i < |d.rows| ensures d.rows[i].id != k {
            assert d.rows[i] in d.rows;
            assert d.rows[i] in db.rows;
          }
        }
      }
    }
  }

  /** The table behind `EmployeeContext.Employees`, updated in place by the actions. */
  class EmployeeStore {
    var rows: seq<Employee>
    var nextId: int

    function State(): Db
      reads this
    {
      Db(rows, nextId)
    }

    ghost predicate Valid()
      reads this
    {
      State().Valid()
    }

    constructor (db: Db)
      requires db.Valid()
      ensures Valid() && State() == db
    {
      rows, nextId := db.rows, db.nextId;
    }

    /** `Add` of an entity whose key is unassigned, committed by `SaveChanges`. */
    method Add(lastName: string, firstName: string) returns (added: Employee)
      requires Valid()
      modifies this
      ensures Valid() && State() == old(State()).Inserted(lastName, firstName)
      ensures added == Employee(old(nextId), lastName, firstName)
    {
      added := Employee(nextId, lastName, firstName);
      rows := rows + [added];
      nextId := nextId + 1;
    }

    /** `SaveChanges` after the tracked row `e.id` was given new field values. */
    method Update(e: Employee)
      requires Valid()
      modifies this
      ensures Valid() && State() == old(State()).Updated(e)
    {
      var p := IndexOf(rows, e.id);
      if p != -1 {
        rows := rows[p := e];
      }
    }

    /** `Remove` of the tracked row `id`, committed by `SaveChanges`. */
    method Remove(id: int)
      requires Valid()
      modifies this
      ensures Valid() && State() == old(State()).Removed(id)
    {
      var p := IndexOf(rows, id);
      if p != -1 {
        rows := rows[..p] + rows[p + 1..];
      }
    }
  }
}
