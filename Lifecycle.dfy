/** Properties of the employee lifecycle that relate an action to the table and to later reads. */
module Lifecycle {
  import opened Models
  import opened Data
  import opened Controllers

  /**
   * Without an id, Details, Edit (GET), Delete (GET) and EditPost answer NotFound and leave
   * the table as it was. The test at EmployeesControllerTest.cs:74-77 expects BadRequest for
   * `Details(null)` instead.
   */
  lemma AbsentIdIsNotFound(db: Db, flag: Option<bool>, bindOk: bool, lastName: string, firstName: string,
                           saveFails: bool)
    requires db.Valid()
    ensures LookupView(db, None) == NotFound
    ensures DeleteView(db, None, flag) == NotFound
    ensures EditPostStep(db, None, bindOk, lastName, firstName, saveFails) == Step(NotFound, db)
  {
  }

  /**
   * With an id that is in the table, Details and Edit (GET) show exactly the stored row, and
   * Delete (GET) shows it with "Delete failed" exactly when the flag is true; the default
   * `false` and a null flag show no message.
   */
  lemma StoredRowIsShown(db: Db, i: int, saveChangesError: Option<bool>)
    requires db.Valid() && 0 <= i < |db.rows|
    ensures LookupView(db, Some(db.rows[i].id)) == View(One(db.rows[i]), None)
    ensures DeleteView(db, Some(db.rows[i].id), saveChangesError)
         == View(One(db.rows[i]), if saveChangesError == Some(true) then Some(DeleteFailed) else None)
  {
    FindIsTheRow(db, db.rows[i].id, i);
  }

  /**
   * A valid, saved Create adds exactly one row: its id is the fresh identity value, not
   * one in the table before, and it carries the posted names; every other id finds what it
   * found before, and the list grows by one.
   */
  lemma CreateInsertsOneFreshRow(db: Db, form: EmployeeForm)
    requires db.Valid()
    ensures var s := CreateStep(db, Some(form), true, false);
      && s.result == RedirectIndex
      && db.Find(db.nextId).None?
      && s.db.Find(db.nextId) == Some(Employee(db.nextId, form.lastName, form.firstName))
      && (forall k | k != db.nextId :: s.db.Find(k) == db.Find(k))
      && |s.db.rows| == |db.rows| + 1
  {
    var s := CreateStep(db, Some(form), true, false);
    forall k
      ensures s.db.Find(k) == if k == db.nextId then Some(Employee(db.nextId, form.lastName, form.firstName))
                              else db.Find(k)
    {
      FindAfterInsert(db, form.lastName, form.firstName, k);
    }
    FindAfterInsert(db, form.lastName, form.firstName, db.nextId);
  }

  /** After a saved Create, Details of the new id shows the new row. */
  lemma CreatedRowIsShown(db: Db, form: EmployeeForm)
    requires db.Valid()
    ensures LookupView(CreateStep(db, Some(form), true, false).db, Some(db.nextId))
         == View(One(Employee(db.nextId, form.lastName, form.firstName)), None)
  {
    FindAfterInsert(db, form.lastName, form.firstName, db.nextId);
  }

  /** Overposting: whatever id the form carries, Create does exactly the same. */
  lemma CreateIgnoresPostedId(db: Db, f: EmployeeForm, g: EmployeeForm, modelStateValid: bool, saveFails: bool)
    requires db.Valid() && f.lastName == g.lastName && f.firstName == g.firstName
    ensures CreateStep(db, Some(f), modelStateValid, saveFails) == CreateStep(db, Some(g), modelStateValid, saveFails)
  {
  }

  /** An invalid model state re-renders the candidate and adds no row. */
  lemma CreateInvalidAddsNothing(db: Db, posted: Option<EmployeeForm>, saveFails: bool)
    requires db.Valid()
    ensures CreateStep(db, posted, false, saveFails) == Step(View(Candidate(posted), None), db)
  {
  }

  /**
   * A storage error is handled differently by the two writing actions: Create re-renders
   * the candidate with "unable to save changes", EditPost redirects to the list anyway.
   * Neither changes the table.
   */
  lemma SaveErrorRecovery(db: Db, form: EmployeeForm, id: int, lastName: string, firstName: string)
    requires db.Valid() && db.Find(id).Some?
    ensures CreateStep(db, Some(form), true, true)
         == Step(View(One(Employee(UnassignedId, form.lastName, form.firstName)), Some(UnableToSaveChanges)), db)
    ensures EditPostStep(db, Some(id), true, lastName, firstName, true) == Step(RedirectIndex, db)
  {
  }

  /**
   * A bound and saved EditPost changes only the two names of row `id`: the row keeps its
   * id, every other id finds what it found before, and the table keeps its size.
   */
  lemma EditPostChangesOnlyNames(db: Db, id: int, lastName: string, firstName: string)
    requires db.Valid() && db.Find(id).Some?
    ensures var s := EditPostStep(db, Some(id), true, lastName, firstName, false);
      && s.result == RedirectIndex
      && s.db.Find(id) == Some(Employee(id, lastName, firstName))
      && (forall k | k != id :: s.db.Find(k) == db.Find(k))
      && |s.db.rows| == |db.rows| && s.db.nextId == db.nextId
  {
    var e := Employee(id, lastName, firstName);
    assert db.Find(id).value.(lastName := lastName, firstName := firstName) == e;
    forall k ensures db.Updated(e).Find(k) == if k == id then Some(e) else db.Find(k) {
      FindAfterUpdate(db, e, k);
    }
  }

  /** After a saved edit, Edit (GET) of the same id shows the new names. */
  lemma EditedRowIsShown(db: Db, id: int, lastName: string, firstName: string)
    requires db.Valid() && db.Find(id).Some?
    ensures LookupView(EditPostStep(db, Some(id), true, lastName, firstName, false).db, Some(id))
         == View(One(Employee(id, lastName, firstName)), None)
  {
    EditPostChangesOnlyNames(db, id, lastName, firstName);
  }

  /** When binding fails, the edit form shows the loaded row with the posted names; nothing is saved. */
  lemma EditPostBindFailure(db: Db, id: int, lastName: string, firstName: string, saveFails: bool)
    requires db.Valid() && db.Find(id).Some?
    ensures EditPostStep(db, Some(id), false, lastName, firstName, saveFails)
         == Step(View(One(Employee(id, lastName, firstName)), None), db)
  {
  }

  /** EditPost and DeleteConfirmed on an id with no row throw rather than answering NotFound. */
  lemma MissingRowCrashes(db: Db, id: int, bindOk: bool, lastName: string, firstName: string, saveFails: bool)
    requires db.Valid() && forall i | 0 <= i < |db.rows| :: db.rows[i].id != id
    ensures EditPostStep(db, Some(id), bindOk, lastName, firstName, saveFails) == Step(Crash, db)
    ensures DeleteConfirmedStep(db, id, saveFails) == Step(Crash, db)
  {
  }

  /**
   * A saved DeleteConfirmed removes exactly row `id`: the list shrinks by one, every other
   * id finds what it found before, and Details of `id` now answers NotFound.
   */
  lemma DeleteConfirmedRemovesOne(db: Db, id: int)
    requires db.Valid() && db.Find(id).Some?
    ensures var s := DeleteConfirmedStep(db, id, false);
      && s.result == RedirectIndex
      && |s.db.rows| == |db.rows| - 1
      && s.db.Find(id).None?
      && (forall k | k != id :: s.db.Find(k) == db.Find(k))
      && LookupView(s.db, Some(id)) == NotFound
  {
    forall k ensures db.Removed(id).Find(k) == if k == id then None else db.Find(k) {
      FindAfterRemove(db, id, k);
    }
  }

  /** DeleteConfirmed has no catch: a failed save throws and the row stays. */
  lemma DeleteConfirmedSaveErrorCrashes(db: Db, id: int)
    requires db.Valid()
    ensures DeleteConfirmedStep(db, id, true) == Step(Crash, db)
  {
  }
}
