# Employee lifecycle controller, modelled in Dafny

This project models the core of a small ASP.NET Core record-management application for one
entity, `Employee` (an identity key `ID`, `LastName`, `FirstName`). There are two parts:

- `EmployeesController`: the actions Index, Details, Create (POST), Edit (GET), EditPost,
  Delete (GET) and DeleteConfirmed, plus the private `EmployeeExists`. All of them work on
  the shared `Employees` table of the database context.
- `DbInitalizer.Initialize`: the start-up routine that seeds an empty table with two records.

The table is modelled as `Db(rows, nextId)`:

- `rows` holds the stored rows, ordered by ascending id, as a clustered primary key keeps them.
- `nextId` is the next value of the `IDENTITY(1,1)` key column.

`Db.Valid()` is the table invariant: ids are unique and ascending, and every id lies in
`1 .. nextId-1`. The class `Data.EmployeeStore` holds this table in mutable fields.
`Controllers.EmployeesController` holds the store as its readonly `context`. Actions that
write to the table are methods with `modifies context`. Actions that only read have no
`modifies` clause, so the verifier checks that they change nothing.

An action's result is a `Controllers.ActionResult`, one of:

- `NotFound`;
- `View(model, message)`, where `message` is the single error line the action attaches: the
  model-level `ModelState` error in Create, or `ViewData["ErrorMessage"]` in Delete;
- `RedirectIndex`;
- `Crash`, for an exception the action does not catch.

Each writing action is specified by a pure step function (`CreateStep`, `EditPostStep`,
`DeleteConfirmedStep`). The step function maps the table before the call to the result and
the table after it, and the method's postcondition equates the method with its step
function. The lemmas in module `Lifecycle` state what the actions promise, in terms of these
functions and of `Db.Find`, the model of `SingleOrDefaultAsync(m => m.ID == id)`.

Decisions the framework makes become inputs:

- `modelStateValid` stands for `ModelState.IsValid`.
- `bindOk` is the answer of `TryUpdateModelAsync`, and the names it binds are parameters.
- `saveFails` says that `SaveChangesAsync` throws `DbUpdateException`.

A nullable `int?` or `bool?` is an `Option`, and the `null` argument that a test passes to
Create is `None`.

Create binds only `LastName` and `FirstName` from the posted form (`[Bind]`, the defence
against overposting). `Models.BindCreate` builds the new employee from those two fields with
an unassigned key, and `Lifecycle.CreateIgnoresPostedId` proves that the posted id makes no
difference.

The model follows the code as written; in particular:

- `Details(null)` answers NotFound. The test at `EmployeesControllerTest.cs:74-77` expects
  BadRequest.
- `EditPost` on an id with no row hands `null` to `TryUpdateModelAsync`, which throws
  (`Crash`).
- `DeleteConfirmed` on an id with no row calls `Remove(null)`, which throws (`Crash`).
- `DeleteConfirmed` has no catch around its save, so a storage error is a `Crash`.
- On a storage error, Create re-renders the form with "unable to save changes". EditPost
  adds the same error and then redirects to the list, so the error is not shown.

## Model

| member | source | states |
|---|---|---|
| `Data.Lookup` | Controllers/EmployeesController.cs:36-37 | the row found has the requested id and is a stored row; nothing is found exactly when no stored row has that id |
| `Data.AtMostOneMatch` | Controllers/EmployeesController.cs:36-37 | in a valid table two rows with the same id are the same row, so `SingleOrDefaultAsync` never meets two matches |
| `Data.FindIsTheRow` | Controllers/EmployeesController.cs:36-37 | in a valid table the lookup of a stored row's id returns exactly that row |
| `Data.Db.Inserted` | Controllers/EmployeesController.cs:63-64 | adding and saving appends one row under the current identity value; the table invariant holds afterwards and the counter advances by one |
| `Data.Db.Updated` | Controllers/EmployeesController.cs:101-106 | saving a tracked row keeps the table invariant, its size and the identity counter |
| `Data.Db.Removed` | Controllers/EmployeesController.cs:147-148 | removing a row keeps the table invariant; the table shrinks by one exactly when the id was present |
| `Data.FindAfterInsert` | Controllers/EmployeesController.cs:63-64 | the new identity value was not in the table; afterwards it finds the new row and every other id finds what it found before |
| `Data.FindAfterUpdate` | Controllers/EmployeesController.cs:101-106 | after an update the row's id finds the new row and every other id finds what it found before |
| `Data.FindAfterRemove` | Controllers/EmployeesController.cs:147-148 | after a removal the id finds nothing and every other id finds what it found before |
| `Data.EmployeeStore.Add` | Controllers/EmployeesController.cs:63-64 | the store's table becomes the old table with the row inserted, and the returned row carries the assigned id |
| `Data.EmployeeStore.Update` | Controllers/EmployeesController.cs:101-106 | the store's table becomes the old table with the row updated |
| `Data.EmployeeStore.Remove` | Controllers/EmployeesController.cs:147-148 | the store's table becomes the old table with the row removed |
| `Controllers.LookupView` | Controllers/EmployeesController.cs:29-44 | NotFound exactly when there is no id or no stored row has that id; otherwise a view of a stored row with that id and no message |
| `Controllers.DeleteView` | Controllers/EmployeesController.cs:119-139 | always NotFound or a view; NotFound in the same cases as Details; otherwise a view of the same row, with "Delete failed" exactly when the flag is true (a null flag counts as false) |
| `Controllers.CreateStep` | Controllers/EmployeesController.cs:57-73 | redirect exactly when the model is valid, the argument is not null and the save succeeds, and then one row is inserted; a crash exactly when the model is valid and the argument is null; never NotFound, so otherwise the candidate is re-rendered, with "unable to save changes" exactly when the model was valid; the table changes only on the redirect |
| `Controllers.EditPostStep` | Controllers/EmployeesController.cs:93-116 | NotFound exactly when there is no id; a crash exactly when the id has no row; a redirect exactly when the row exists and binding succeeds; on a failed bind, a view of the loaded row with the posted names; the table changes only on a redirect whose save succeeded, and it keeps its size and identity counter |
| `Controllers.DeleteConfirmedStep` | Controllers/EmployeesController.cs:144-150 | always a redirect or a crash; a redirect exactly when the row exists and the save succeeds, and then the row is removed; after a crash the table is unchanged |
| `Controllers.EmployeesController.Index` | Controllers/EmployeesController.cs:23-26 | a view of a list as long as the table; every listed row is the stored row for its id, and every stored row is listed; the table is not modified |
| `Controllers.EmployeesController.Details` | Controllers/EmployeesController.cs:29-44 | the result is `LookupView` of the current table; the table is not modified |
| `Controllers.EmployeesController.Create` | Controllers/EmployeesController.cs:57-73 | the result and the new table are those of `CreateStep` on the old table |
| `Controllers.EmployeesController.Edit` | Controllers/EmployeesController.cs:76-89 | the result is `LookupView` of the current table; the table is not modified |
| `Controllers.EmployeesController.EditPost` | Controllers/EmployeesController.cs:93-116 | the result and the new table are those of `EditPostStep` on the old table |
| `Controllers.EmployeesController.Delete` | Controllers/EmployeesController.cs:119-139 | the result is `DeleteView` of the current table; the table is not modified (the no-tracking read) |
| `Controllers.EmployeesController.DeleteConfirmed` | Controllers/EmployeesController.cs:144-150 | the result and the new table are those of `DeleteConfirmedStep` on the old table |
| `Controllers.EmployeesController.EmployeeExists` | Controllers/EmployeesController.cs:152-155 | true exactly when some stored row has the id |
| `Lifecycle.AbsentIdIsNotFound` | Controllers/EmployeesController.cs:31-34 | without an id, Details, Edit, Delete and EditPost answer NotFound and leave the table unchanged |
| `Lifecycle.StoredRowIsShown` | Controllers/EmployeesController.cs:119-139 | for an id in the table, Details and Edit show exactly the stored row with that id, and Delete shows it with "Delete failed" exactly when the flag is true: the default `false` and a null flag show no message |
| `Lifecycle.CreateInsertsOneFreshRow` | Controllers/EmployeesController.cs:61-65 | a valid, saved Create redirects and inserts one row under an id that was not in the table, with the posted names; every other id is unaffected and the list grows by one |
| `Lifecycle.CreatedRowIsShown` | EmployeesControllerTest.cs:121-131 | after a saved Create, Details of the new id shows the new row |
| `Lifecycle.CreateIgnoresPostedId` | Controllers/EmployeesController.cs:57 | `[Bind]` through `Models.BindCreate`: two forms that differ only in the posted id lead to the same result and the same table |
| `Lifecycle.CreateInvalidAddsNothing` | Controllers/EmployeesController.cs:59-72 | with an invalid model state Create re-renders the candidate without a message and leaves the table unchanged |
| `Lifecycle.SaveErrorRecovery` | Controllers/EmployeesController.cs:68-72 | on a storage error Create re-renders the candidate with "unable to save changes", but EditPost redirects to the list; neither changes the table |
| `Lifecycle.EditPostChangesOnlyNames` | Controllers/EmployeesController.cs:100-107 | a bound, saved EditPost redirects and changes only the names of that row; its id, every other row, the size and the identity counter stay the same |
| `Lifecycle.EditedRowIsShown` | Controllers/EmployeesController.cs:76-89 | after a saved edit, Edit of the same id shows the new names |
| `Lifecycle.EditPostBindFailure` | Controllers/EmployeesController.cs:101-115 | when binding fails, EditPost shows the loaded row with the posted names and saves nothing |
| `Lifecycle.MissingRowCrashes` | Controllers/EmployeesController.cs:100-102 | EditPost and DeleteConfirmed on an id with no row throw and leave the table unchanged |
| `Lifecycle.DeleteConfirmedRemovesOne` | Controllers/EmployeesController.cs:144-149 | a saved DeleteConfirmed redirects and removes exactly that row: the list shrinks by one, every other id is unaffected, and Details of the id answers NotFound |
| `Lifecycle.DeleteConfirmedSaveErrorCrashes` | Controllers/EmployeesController.cs:148 | a failed save in DeleteConfirmed throws and leaves the table unchanged |
| `DbInitalizer.AddAll` | Data/DbInitalizer.cs:26-30 | adding rows one by one keeps the table invariant; the table and the identity counter grow by the number of rows added |
| `DbInitalizer.Initialize` | Data/DbInitalizer.cs:11-32 | the loop over the seed array leaves the table that `Seeded` describes, and the invariant holds |
| `DbInitalizer.SeedNonEmptyIsNoop` | Data/DbInitalizer.cs:15-18 | on a non-empty table the seeding changes nothing |
| `DbInitalizer.SeedEmptyAddsTwo` | Data/DbInitalizer.cs:20-30 | on an empty table the seeding leaves exactly Washington/George then Adams/John, under the next two identity values, with no model-state check |
| `DbInitalizer.InitializeIdempotent` | Data/DbInitalizer.cs:15-30 | seeding a second time changes nothing |

## Left out

- The change tracker and identity map of Entity Framework Core are not modelled. An entity that was loaded and then changed in memory without a save is not visible to later reads in the model. This is why the test at `EmployeesControllerTest.cs:166-185` cannot be reproduced here.
- The mapping in Data/EmployeeContext.cs is not part of this model: `DbSet`, `ToTable`, connection strings, `EnsureCreated` and dependency injection. They are framework wiring.
- `async`/`Task`, anti-forgery validation, routing and view rendering are not modelled. A view is only its model and message.
- Model binding and validation internals are not modelled. The validation annotations live in a model class that is not part of this model. Their outcomes are the inputs `modelStateValid` and `bindOk`, and any errors `ModelState` already holds are not represented.
- EditPost binds both names from the form. A form that omits one of the two fields is not modelled.
- The GET `Create()`, which only returns an empty view, is not modelled.
- Concurrent requests are not modelled: races between two deletes, or between the seed's emptiness check and its insert.
- The shared test database and the order in which tests run are not modelled, so results such as `Delete(6)` at `EmployeesControllerTest.cs:196-199` are not reproduced.
- `DbInitalizer.Initialize`: a failure of its single `SaveChanges` is not modelled. It would propagate to the host. The model applies each `Add` at once instead of staging the adds until the save, which gives the same final table.
- `Controllers.CreateStep`: a failed insert leaves the identity counter unchanged. SQL Server may instead consume an identity value on a failed insert, leaving a gap.
- The key column is a C# `int` and an `IDENTITY` column of type `int`, so both are bounded. Here `nextId`, `Employee.id` and the `id` arguments are unbounded integers, so an insert that fails because the identity value passes 2^31-1 is not modelled.
- `Controllers.EmployeesController.Index`: the query has no `ORDER BY`, so the source promises no order. The model lists rows in table order, by ascending id.
