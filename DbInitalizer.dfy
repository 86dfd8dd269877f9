/**
 * The start-up seeding routine (class `DbInitalizer`, spelled as in the application):
 * when the Employee table is empty it adds two trusted records, otherwise it does nothing.
 */
module DbInitalizer {
  import opened Models
  import opened Data

  /** The seed records, in the order the routine adds them; their keys are unassigned. */
  function SeedEmployees(): seq<Employee>
  {
    [Employee(UnassignedId, "Washington", "George"), Employee(UnassignedId, "Adams", "John")]
  }

  /** The table after `Add` of each of `es` in order and one `SaveChanges`. */
  function AddAll(db: Db, es: seq<Employee>): (d: Db)
    requires db.Valid()
    ensures d.Valid() && d.nextId == db.nextId + |es|
    ensures |d.rows| == |db.rows| + |es|
  {
    if es == [] then db
    else
      var last := es[|es| - 1];
      AddAll(db, es[..|es| - 1]).Inserted(last.lastName, last.firstName)
  }

  /** What `Initialize` leaves in the table. No model-state check guards the seed rows. */
  function Seeded(db: Db): Db
    requires db.Valid()
  {
    if db.rows != [] then db else AddAll(db, SeedEmployees())
  }

  /** `Initialize(context)`: seed an empty table, leave a non-empty one alone. */
  method Initialize(context: EmployeeStore)
    requires context.Valid()
    modifies context
    ensures context.Valid() && context.State() == Seeded(old(context.State()))
  {
    if context.rows != [] {
      return;
    }
    var employee := new Employee[] [Employee(UnassignedId, "Washington", "George"),
                                    Employee(UnassignedId, "Adams", "John")];
    ghost var start := context.State();
    var i := 0;
    while i < employee.Length
      invariant 0 <= i <= employee.Length && employee[..] == SeedEmployees()
      invariant context.Valid() && context.State() == AddAll(start, employee[..i])
    {
      var _ := context.Add(employee[i].lastName, employee[i].firstName);
      assert employee[..i + 1][..i] == employee[..i];
      i := i + 1;
    }
    assert employee[..i] == SeedEmployees();
  }

  /** On a non-empty table `Initialize` returns without touching it. */
  lemma SeedNonEmptyIsNoop(db: Db)
    requires db.Valid() && db.rows != []
    ensures Seeded(db) == db
  {
  }

  /**
   * On an empty table `Initialize` leaves exactly Washington/George and Adams/John, in that
   * order, under the next two identity values.
   */
  lemma SeedEmptyAddsTwo(db: Db)
    requires db.Valid() && db.rows == []
    ensures Seeded(db) == Db([Employee(db.nextId, "Washington", "George"),
                              Employee(db.nextId + 1, "Adams", "John")], db.nextId + 2)
  {
    var seeds := SeedEmployees();
    assert seeds[..1] == [seeds[0]] && seeds[..1][..0] == [];
    var once := AddAll(db, seeds[..1]);
    assert once == Db([Employee(db.nextId, "Washington", "George")], db.nextId + 1);
  }

  /** A second `Initialize` finds the table non-empty and changes nothing. */
  lemma InitializeIdempotent(db: Db)
    requires db.Valid()
    ensures Seeded(db).Valid() && Seeded(Seeded(db)) == Seeded(db)
  {
  }
}
