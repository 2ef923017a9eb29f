# Task manager controller, modelled in Dafny

This project models `TasksController`, the one controller of a small ASP.NET
task-list API. The controller offers five endpoints over a single entity,
`TaskItem`, which has an integer id, a nullable title, a nullable description
and a nullable completion flag:

- list every task;
- read one task by id;
- create a task;
- partially update a task;
- delete a task.

The persistence layer, an EF Core `DbSet`, becomes a value of type
`map<int, TaskItem>`:

- `FindAsync(id)` is a map lookup.
- `Add` is an insertion under the key the database assigns.
- `Remove` is a key removal.
- `ToListAsync` yields the map's rows in no guaranteed order, so the listing is
  described by the multiset `TaskStore.Contents`.

Each endpoint is a pure step from the current table and the request's arguments
to an `Outcome`. An outcome is a response (`Ok`, `OkList`, `Created`,
`NoContent`, `BadRequest`, `NotFound`) together with the next table.

Files:

- `task_model.dfy` (module `TaskModel`): the `TaskItem` datatype, `string.IsNullOrEmpty`, and the field-by-field partial-update rule `Merge`.
- `task_store.dfy` (module `TaskStore`): the table, its contents as a multiset, and how inserting, removing and replacing a row change those contents.
- `tasks_controller.dfy` (module `TasksController`): the five endpoints.
- `controller_laws.dfy` (module `ControllerLaws`): laws that relate several calls. These cover read-after-write, repeated writes, the primary-key invariant, and listings after a run of creates.

## Model

| member | source | states |
|---|---|---|
| TaskModel.Merge | Controllers/TasksController.cs:64-77 | The stored id is never taken from the patch. Title and description are overwritten only by a non-null, non-empty incoming value and are otherwise kept. The completion flag is overwritten whenever the incoming flag has a value, `false` included. |
| TaskModel.MergeIdempotent | Controllers/TasksController.cs:64-77 | Applying the same patch a second time gives the same task as applying it once. |
| TaskModel.MergeChangesIff | Controllers/TasksController.cs:64-77 | A patch leaves the task unchanged if and only if each of its fields either fails its presence test or already equals the stored value. |
| TaskModel.MergeEmptyPatch | Controllers/TasksController.cs:64-77 | A patch whose text fields are null or empty and whose flag is null changes nothing. |
| TaskModel.MergeFullPatch | Controllers/TasksController.cs:64-77 | A patch with every field present replaces every field except the id. |
| TaskModel.MergeExample | Controllers/TasksController.cs:64-77 | Worked case: an empty title is ignored, description "C" overwrites "B", and a null flag keeps `false`. |
| TaskStore.ContentsRemove | Controllers/TasksController.cs:105 | Removing any key takes exactly that key's row out of the table's contents, whichever key the contents were built from. |
| TaskStore.ContentsInsert | Controllers/TasksController.cs:43-44 | Adding a row under a fresh key adds exactly that row to the contents. |
| TaskStore.ContentsReplace | Controllers/TasksController.cs:64-81 | Overwriting the row at an existing key swaps that one row in the contents, old for new. |
| TaskStore.ContentsSize | Controllers/TasksController.cs:23 | The contents hold exactly one row per key of the table. |
| TaskStore.ContentsMembership | Controllers/TasksController.cs:23 | A task is among the contents if and only if some key of the table maps to it. |
| TasksController.GetTasks | Controllers/TasksController.cs:21-24 | The listing succeeds. As a multiset, it equals the table's contents: every row once, in some order. The table is unchanged. |
| TasksController.GetTask | Controllers/TasksController.cs:28-37 | The result is `Ok` exactly when the id is stored, and then carries exactly the stored row. Otherwise the result is `NotFound`. The table is never changed. |
| TasksController.CreateTask | Controllers/TasksController.cs:41-47 | The created row is the payload under the newly assigned id. It is returned as `Created`. The table gains exactly that key, and every other row is kept. |
| TasksController.UpdateTask | Controllers/TasksController.cs:51-93 | The id mismatch is checked first and gives `BadRequest("Task ID mismatch.")` with the table unchanged, whatever the table holds. An absent id then gives `NotFound` with the table unchanged. Otherwise the result is `NoContent` (and this holds in no other case). The table keeps its keys, the row at `id` becomes the merge, and every other row is kept. |
| TasksController.DeleteTask | Controllers/TasksController.cs:97-109 | An absent id gives `NotFound` with the table unchanged. A present id gives `NoContent` and removes exactly that key. Every remaining row is kept as it was. |
| ControllerLaws.AbsentIdIsNotFound | Controllers/TasksController.cs:28-109 | For an id not in the table, read, update (with a matching body id) and delete all give `NotFound` and leave the table alone. |
| ControllerLaws.MismatchIgnoresStore | Controllers/TasksController.cs:53-56 | An id mismatch gets the same response on any two tables and changes neither of them. |
| ControllerLaws.UpdateIdempotent | Controllers/TasksController.cs:58-77 | Sending the same update twice gives the same outcome as sending it once. |
| ControllerLaws.GetAfterUpdate | Controllers/TasksController.cs:58-77 | After a successful update, reading the id returns the merged row. |
| ControllerLaws.GetOtherAfterUpdate | Controllers/TasksController.cs:58-77 | An update leaves reads of every other id as they were. |
| ControllerLaws.GetAfterDelete | Controllers/TasksController.cs:97-109 | After a delete, reading the same id gives `NotFound`. |
| ControllerLaws.DeleteTwice | Controllers/TasksController.cs:97-109 | A second delete of the same id gives `NotFound` and changes nothing. It does not silently succeed. |
| ControllerLaws.GetOtherAfterDelete | Controllers/TasksController.cs:97-109 | A delete leaves reads of every other id as they were. |
| ControllerLaws.GetAfterCreate | Controllers/TasksController.cs:41-47 | After a create, reading the new id returns the payload under that id. |
| ControllerLaws.WritesKeepWellKeyed | Controllers/TasksController.cs:41-109 | If every row sits under its own id before create, update or delete, the same holds after it. |
| ControllerLaws.GetReturnsRequestedId | Controllers/TasksController.cs:28-37 | In a table keyed by id, a successful read returns a task that carries the requested id. |
| ControllerLaws.ContentsAfterCreate | Controllers/TasksController.cs:41-47 | The listing after a create has exactly one more row, the created one. |
| ControllerLaws.ContentsAfterDelete | Controllers/TasksController.cs:97-109 | The listing after a successful delete lacks exactly the removed row. |
| ControllerLaws.ContentsAfterUpdate | Controllers/TasksController.cs:58-77 | The listing after a successful update has the old row replaced by the merged one. |
| ControllerLaws.Assigned | Controllers/TasksController.cs:43-46 | The stored form of a run of payloads: the i-th payload under the i-th assigned id. |
| ControllerLaws.CreateAll | Controllers/TasksController.cs:41-47 | N creates with fresh, distinct ids grow the table by N rows. The contents gain exactly the created rows. |
| ControllerLaws.ListAfterCreates | Controllers/TasksController.cs:21-47 | Starting from an empty table, N creates yield a listing of exactly N rows. Every created row appears in it. |

## Left out

- TasksController.CreateTask: the database assigns the new key, and that code is not part of this model. The key is therefore a parameter `newId`, and the requirement that `newId` is not already in the table is an assumption about the database. The model stores the payload under `newId` whatever id the client sent. What EF Core does with an explicit non-zero client id depends on the database and is not modelled.
- Update: the `DbUpdateConcurrencyException` handler and `TaskItemExists` (Controllers/TasksController.cs:79-90, 111) are not modelled. They only matter when another writer changes the row concurrently. `SaveChangesAsync` is modelled as always succeeding, so the "re-check, then NotFound or rethrow" path does not appear.
- Async/await, EF Core change tracking, dependency injection of `AppDbContext`, and routing attributes are framework plumbing and are not modelled.
- HTTP status codes are named by the response constructors only. The `CreatedAtAction` location header is not modelled.
- TasksController.GetTasks: the order of `ToListAsync` results is not fixed by the code, so only the listing's multiset of rows is specified.
- The `TaskItem` class declaration (Models/TaskItem.cs) is not part of this model. Its shape is inferred from how the controller uses it: an `int` id, nullable `Title` and `Description` strings, and a nullable `bool` `IsCompleted`.
- Every row sitting under its own id (`TaskStore.WellKeyed`) is a property of a primary-keyed table. The map type does not enforce it. The laws that need it assume it, and `ControllerLaws.WritesKeepWellKeyed` shows that every write preserves it.
- Strings are compared as character sequences. Only `null` and `""` count as empty, as `string.IsNullOrEmpty` specifies, so a whitespace-only title does overwrite.
