/**
 * The employee lifecycle controller: list, details, create, edit, delete. Each action is a
 * method of `EmployeesController` over the shared table; each is specified by a function of
 * the table before the call that gives the action's result and the table after it.
 *
 * What the framework decides is an input: `modelStateValid` is `ModelState.IsValid`,
 * `bindOk` is the answer of `TryUpdateModelAsync`, and `saveFails` says that
 * `SaveChangesAsync` throws `DbUpdateException`.
 */
module Controllers {
  import opened Models
  import opened Data

  /** What a view is given to render: nothing, one employee, or the list of employees. */
  datatype ViewModel = NoModel | One(employee: Employee) | Many(employees: seq<Employee>)

  /**
   * The outcome of an action. `message` is the extra error line the action attaches for the
   * view: the model-level `ModelState` error of Create or `ViewData["ErrorMessage"]` of
   * Delete. `Crash` is an exception the action does not catch.
   */
  datatype ActionResult =
    | NotFound
    | View(model: ViewModel, message: Option<string>)
    | RedirectIndex
    | Crash

  /** The result of an action together with the table it leaves behind. */
  datatype Step = Step(result: ActionResult, db: Db)

  const UnableToSaveChanges := "unable to save changes"
  const DeleteFailed := "Delete failed"

  /** The view model Create re-renders: the bound employee, or nothing for a null argument. */
  function Candidate(posted: Option<EmployeeForm>): ViewModel
  {
    if posted.None? then NoModel else One(BindCreate(posted.value))
  }

  /**
   * `Details(id)` and `Edit(id)` (GET): NotFound without an id or without a row for it,
   * otherwise a view of the stored row. The test at EmployeesControllerTest.cs:74-77
   * expects BadRequest for `Details(null)`; the action answers NotFound.
   */
  function LookupView(db: Db, id: Option<int>): (r: ActionResult)
    ensures r.NotFound? || r.View?
    ensures r.NotFound? <==> id.None? || forall i | 0 <= i < |db.rows| :: db.rows[i].id != id.value
    ensures r.View? ==> r.message.None? && r.model.One?
                        && r.model.employee in db.rows && r.model.employee.id == id.value
  {
    if id.None? then NotFound
    else
      match db.Find(id.value)
      case None => NotFound
      case Some(employee) => View(One(employee), None)
  }

  /**
   * `Delete(id, saveChangesError)` (GET): the same lookup as Details, read without tracking;
   * the view carries "Delete failed" exactly when the flag is true (a null flag reads as false).
   */
  function DeleteView(db: Db, id: Option<int>, saveChangesError: Option<bool>): (r: ActionResult)
    ensures r.NotFound? || r.View?
    ensures r.NotFound? <==> LookupView(db, id).NotFound?
    ensures r.View? ==> r.model == LookupView(db, id).model
    ensures r.View? ==> (r.message.Some? <==> saveChangesError == Some(true))
    ensures r.View? && r.message.Some? ==> r.message.value == DeleteFailed
  {
    match LookupView(db, id)
    case View(model, _) =>
      View(model, if saveChangesError == Some(true) then Some(DeleteFailed) else None)
    case _ => NotFound
  }

  /**
   * `Create(employee)` (POST). Only the two names of the posted form are bound. A valid
   * model is added and saved, then the caller is redirected; a failed save re-renders the
   * candidate with "unable to save changes"; an invalid model re-renders it with nothing
   * saved. A null argument with a valid model state reaches `Add(null)`, which throws.
   */
  function CreateStep(db: Db, posted: Option<EmployeeForm>, modelStateValid: bool, saveFails: bool): (s: Step)
    requires db.Valid()
    ensures s.db.Valid()
    ensures !s.result.NotFound?
    ensures s.result.RedirectIndex? <==> modelStateValid && posted.Some? && !saveFails
    ensures s.result.Crash? <==> modelStateValid && posted.None?
    ensures s.result.RedirectIndex? ==> s.db == db.Inserted(posted.value.lastName, posted.value.firstName)
    ensures !s.result.RedirectIndex? ==> s.db == db
    ensures s.result.View? ==> s.result.model == Candidate(posted)
    ensures s.result.View? ==> (s.result.message == Some(UnableToSaveChanges) <==> modelStateValid)
    ensures s.result.View? ==> (s.result.message.None? <==> !modelStateValid)
  {
    if !modelStateValid then Step(View(Candidate(posted), None), db)
    else if posted.None? then Step(Crash, db)
    else if saveFails then Step(View(Candidate(posted), Some(UnableToSaveChanges)), db)
    else Step(RedirectIndex, db.Inserted(posted.value.lastName, posted.value.firstName))
  }

  /**
   * `EditPost(id)`. Without an id: NotFound. The row is loaded and handed to
   * `TryUpdateModelAsync` without a null check, so a missing row throws. The two names are
   * bound onto the loaded row; when binding fails the edit form shows that row, nothing
   * saved. When it succeeds the row is saved and the caller is redirected, also when the
   * save fails (the error added to `ModelState` is lost with the redirect).
   */
  function EditPostStep(db: Db, id: Option<int>, bindOk: bool, lastName: string, firstName: string,
                        saveFails: bool): (s: Step)
    requires db.Valid()
    ensures s.db.Valid() && s.db.nextId == db.nextId && |s.db.rows| == |db.rows|
    ensures s.result.NotFound? <==> id.None?
    ensures s.result.Crash? <==> id.Some? && db.Find(id.value).None?
    ensures s.result.RedirectIndex? <==> id.Some? && db.Find(id.value).Some? && bindOk
    ensures s.result.View? ==> s.result.message.None? && s.result.model.One?
                               && s.result.model.employee
                                  == db.Find(id.value).value.(lastName := lastName, firstName := firstName)
    ensures s.db != db ==> s.result.RedirectIndex? && !saveFails
  {
    if id.None? then Step(NotFound, db)
    else
      match db.Find(id.value)
      case None => Step(Crash, db)
      case Some(employeeToUpdate) =>
        var bound := employeeToUpdate.(lastName := lastName, firstName := firstName);
        if !bindOk then Step(View(One(bound), None), db)
        else if saveFails then Step(RedirectIndex, db)
        else Step(RedirectIndex, db.Updated(bound))
  }

  /**
   * `DeleteConfirmed(id)`: the row is loaded and passed to `Remove` without a null check,
   * and the save has no catch: a missing row or a failed save throws. Otherwise the row is
   * removed and the caller redirected.
   */
  function DeleteConfirmedStep(db: Db, id: int, saveFails: bool): (s: Step)
    requires db.Valid()
    ensures s.db.Valid()
    ensures s.result.RedirectIndex? || s.result.Crash?
    ensures s.result.RedirectIndex? <==> db.Find(id).Some? && !saveFails
    ensures s.result.RedirectIndex? ==> s.db == db.Removed(id)
    ensures s.result.Crash? ==> s.db == db
  {
    match db.Find(id)
    case None => Step(Crash, db)
    case Some(employee) =>
      if saveFails then Step(Crash, db) else Step(RedirectIndex, db.Removed(employee.id))
  }

  /** The controller; `context` is its (readonly) `EmployeeContext`. */
  class EmployeesController {
    const context: EmployeeStore

    constructor (context: EmployeeStore)
      ensures this.context == context
    {
      this.context := context;
    }

    /** `Index()`: a view of every row of the table. */
    method Index() returns (r: ActionResult)
      requires context.Valid()
      ensures r.View? && r.model.Many? && r.message.None?
      ensures |r.model.employees| == |context.rows|
      ensures forall e | e in r.model.employees :: context.State().Find(e.id) == Some(e)
      ensures forall k | context.State().Find(k).Some? :: context.State().Find(k).value in r.model.employees
    {
      var employees := context.rows;
      forall e | e in employees
        ensures context.State().Find(e.id) == Some(e)
      {
        var i :| 0 <= i < |employees| && employees[i] == e;
        FindIsTheRow(context.State(), e.id, i);
      }
      r := View(Many(employees), None);
    }

    /** `Details(id)`. */
    method Details(id: Option<int>) returns (r: ActionResult)
      requires context.Valid()
      ensures r == LookupView(context.State(), id)
    {
      if id.None? {
        return NotFound;
      }
      var employee := context.State().Find(id.value);
      if employee.None? {
        return NotFound;
      }
      return View(One(employee.value), None);
    }

    /** `Create(employee)` (POST), with the posted form before `[Bind]` is applied. */
    method Create(posted: Option<EmployeeForm>, modelStateValid: bool, saveFails: bool)
      returns (r: ActionResult)
      requires context.Valid()
      modifies context
      ensures context.Valid()
      ensures Step(r, context.State()) == CreateStep(old(context.State()), posted, modelStateValid, saveFails)
    {
      var employee := if posted.Some? then Some(BindCreate(posted.value)) else None;
      if modelStateValid {
        if employee.None? {
          return Crash;
        }
        if !saveFails {
          var _ := context.Add(employee.value.lastName, employee.value.firstName);
          return RedirectIndex;
        }
        return View(One(employee.value), Some(UnableToSaveChanges));
      }
      r := View(if employee.None? then NoModel else One(employee.value), None);
    }

    /** `Edit(id)` (GET). */
    method Edit(id: Option<int>) returns (r: ActionResult)
      requires context.Valid()
      ensures r == LookupView(context.State(), id)
    {
      if id.None? {
        return NotFound;
      }
      var employee := context.State().Find(id.value);
      if employee.None? {
        return NotFound;
      }
      return View(One(employee.value), None);
    }

    /** `EditPost(id)`, with the bound names and the outcome of binding as inputs. */
    method EditPost(id: Option<int>, bindOk: bool, lastName: string, firstName: string, saveFails: bool)
      returns (r: ActionResult)
      requires context.Valid()
      modifies context
      ensures context.Valid()
      ensures Step(r, context.State())
           == EditPostStep(old(context.State()), id, bindOk, lastName, firstName, saveFails)
    {
      if id.None? {
        return NotFound;
      }
      var employeeToUpdate := context.State().Find(id.value);
      if employeeToUpdate.None? {
        return Crash;
      }
      var bound := employeeToUpdate.value.(lastName := lastName, firstName := firstName);
      if bindOk {
        if !saveFails {
          context.Update(bound);
        }
        return RedirectIndex;
      }
      return View(One(bound), None);
    }

    /** `Delete(id, saveChangesError)` (GET): reads the table and changes nothing. */
    method Delete(id: Option<int>, saveChangesError: Option<bool>) returns (r: ActionResult)
      requires context.Valid()
      ensures r == DeleteView(context.State(), id, saveChangesError)
    {
      if id.None? {
        return NotFound;
      }
      var employee := context.State().Find(id.value);
      if employee.None? {
        return NotFound;
      }
      var message := None;
      if saveChangesError == Some(true) {
        message := Some(DeleteFailed);
      }
      return View(One(employee.value), message);
    }

    /** `DeleteConfirmed(id)`. */
    method DeleteConfirmed(id: int, saveFails: bool) returns (r: ActionResult)
      requires context.Valid()
      modifies context
      ensures context.Valid()
      ensures Step(r, context.State()) == DeleteConfirmedStep(old(context.State()), id, saveFails)
    {
      var employee := context.State().Find(id);
      if employee.None? || saveFails {
        return Crash;
      }
      context.Remove(employee.value.id);
      return RedirectIndex;
    }

    /** `EmployeeExists(id)`: whether some row has that id. */
    method EmployeeExists(id: int) returns (b: bool)
      requires context.Valid()
      ensures b <==> exists i | 0 <= i < |context.rows| :: context.rows[i].id == id
    {
      b := context.State().Find(id).Some?;
    }
  }
}
