# Task store of the TaskManagerApi service

TaskManagerApi is a small ASP.NET web service that keeps tasks in memory. Each
task has an id, a description and a completion flag. The only logic in it is
`TasksController`. The controller holds a static list `tasks` and a static counter
`nextId`, which starts at 1. Its six actions run against that state:

- **GetAll** returns the list.
- **GetById** finds a task by id or answers NotFound.
- **Create** refuses a null or all-white-space description. Otherwise it gives the
  new task the id `nextId++`, forces `IsCompleted = false` and appends the task.
- **Update** replaces the description. It does not check the new text.
- **Toggle** negates the completion flag.
- **Delete** removes the task.

The project has three modules:

- `Models` (`models.dfy`) holds the `TaskItem` record and `TaskBody`, which is the
  shape a JSON body is bound to. A body's description may be null (`None`). It also
  holds `IsWhiteSpace` and `IsNullOrWhiteSpace`, written out from .NET's rules.
- `TaskStore` (`task_store.dfy`) holds the controller's state as a value `Store`.
  It has one function per action, each returning the new state and the response.
  It also holds the store invariant and the lemmas. The invariant says that the
  counter is at least 1, that every id lies in `[1, nextId)`, and that ids strictly
  increase along the list. So ids are distinct and the list is in creation order.
  `Handle` and `Run` apply any sequence of requests. They are used to state that an
  id is never handed out twice.
- `Controllers` (`tasks_controller.dfy`) holds the class `TasksController` with the
  fields `tasks` and `nextId`, updated in place. `FindIndex` is the linear
  `FirstOrDefault` search, written as a loop. Each action method keeps
  `Valid()` and is proved to produce exactly the state and response of the matching
  `TaskStore` function.

The ASP.NET `ActionResult`s become the `Response` datatype: `Ok`, `OkList`,
`Created` (with the id the location route points at), `NoContent`, and `NotFound`
and `BadRequest` with the source's fixed messages.

## Model

| member | source | states |
|---|---|---|
| TaskStore.FirstIndexOf | TaskManagerApi/Controllers/TasksController.cs:31 | the index found is the first task with that id; None exactly when no task has that id |
| TaskStore.FirstIndexIsOnly | TaskManagerApi/Controllers/TasksController.cs:11-12 | under the store invariant, the task found by id is the only one with that id |
| TaskStore.GetAll | TaskManagerApi/Controllers/TasksController.cs:19-22 | the response is the whole list in stored order; the state is unchanged |
| TaskStore.GetById | TaskManagerApi/Controllers/TasksController.cs:29-34 | Ok exactly when some task has the id, and then the first stored task with that id; otherwise NotFound("Task not found."); the state is unchanged |
| TaskStore.Create | TaskManagerApi/Controllers/TasksController.cs:41-51 | BadRequest exactly when the description is null, empty or all white space, and then state unchanged; otherwise Created with id = old counter, route id = that id, description verbatim, not completed, appended after the unchanged old list, counter + 1; keeps the invariant, and the new id was not in use |
| TaskStore.Update | TaskManagerApi/Controllers/TasksController.cs:58-65 | NotFound exactly when the id is absent, and then state unchanged; otherwise NoContent, only the found task's description becomes the given text (even empty), ids, flags, other tasks, length and counter unchanged; keeps the invariant |
| TaskStore.Toggle | TaskManagerApi/Controllers/TasksController.cs:72-79 | NotFound exactly when the id is absent, and then state unchanged; otherwise NoContent, only the found task's flag is negated, ids, descriptions, other tasks, length and counter unchanged; keeps the invariant |
| TaskStore.Delete | TaskManagerApi/Controllers/TasksController.cs:86-93 | NotFound exactly when the id is absent, and then state unchanged; otherwise NoContent, length drops by one, tasks before the found one stay in place, the rest shift down one in order, counter unchanged; keeps the invariant |
| TaskStore.UpdateChangesOnlyThatId | TaskManagerApi/Controllers/TasksController.cs:60-63 | under the invariant, the task with the id gets the new description and every other task is unchanged |
| TaskStore.ToggleChangesOnlyThatId | TaskManagerApi/Controllers/TasksController.cs:74-77 | under the invariant, the task with the id has its flag negated and every other task is unchanged |
| TaskStore.DeleteRemovesOnlyThatId | TaskManagerApi/Controllers/TasksController.cs:88-91 | under the invariant, the tasks left are exactly the old tasks whose id differs |
| TaskStore.Handle | TaskManagerApi/Controllers/TasksController.cs:18-93 | a NotFound or BadRequest, and every read, leaves the state unchanged; the counter stays or goes up by one; the invariant is kept |
| TaskStore.Run | TaskManagerApi/Controllers/TasksController.cs:11-12 | over any sequence of requests the counter never goes down and the invariant is kept |
| TaskStore.HandleKeepsIdAbsent | TaskManagerApi/Controllers/TasksController.cs:46 | no request makes an id that is below the counter and absent appear in the list |
| TaskStore.IdNeverReused | TaskManagerApi/Controllers/TasksController.cs:46 | an id below the counter that is absent stays absent after any further requests |
| TaskStore.DeletedIdStaysNotFound | TaskManagerApi/Controllers/TasksController.cs:88-92 | after deleting a present id, whatever requests follow, GetById answers NotFound for it, and Update, Toggle and Delete answer NotFound and change nothing |
| TaskStore.ToggleTwice | TaskManagerApi/Controllers/TasksController.cs:77 | toggling the same id twice restores the state, and both calls answer the same |
| TaskStore.CreatesAppendInOrder | TaskManagerApi/Controllers/TasksController.cs:46-48 | creating N tasks appends them in request order after the unchanged old list, with ids counter, counter + 1, ..., the given descriptions and not completed; the counter goes up by N |
| TaskStore.CreateDeleteCreate | TaskManagerApi/Controllers/TasksController.cs:46-91 | from the start state, create, delete 1, create gives ids 1 and then 2 |
| TaskStore.CreateValidation | TaskManagerApi/Controllers/TasksController.cs:43-47 | null, "" and "   " are refused with BadRequest; " buy milk " is stored untrimmed and not completed, whatever id and flag the body carried |
| TaskStore.Scenario | TaskManagerApi/Controllers/TasksController.cs:41-93 | create, toggle, update, get, delete, get gives Created id 1, then the task with the new description and flag true, then NotFound |
| Controllers.FindIndex | TaskManagerApi/Controllers/TasksController.cs:31 | the loop returns the index of the first task with the id, or None when there is none (the result of FirstIndexOf) |
| Controllers.TasksController.constructor | TaskManagerApi/Controllers/TasksController.cs:11-12 | the initial state is an empty list with counter 1, which satisfies the invariant |
| Controllers.TasksController.GetAll | TaskManagerApi/Controllers/TasksController.cs:19-22 | returns the list as it is stored, changing nothing |
| Controllers.TasksController.GetById | TaskManagerApi/Controllers/TasksController.cs:29-34 | returns the response of TaskStore.GetById, changing nothing |
| Controllers.TasksController.Create | TaskManagerApi/Controllers/TasksController.cs:41-51 | keeps Valid(); the new fields and the response are those of TaskStore.Create on the old fields |
| Controllers.TasksController.Update | TaskManagerApi/Controllers/TasksController.cs:58-65 | keeps Valid(); the new fields and the response are those of TaskStore.Update on the old fields |
| Controllers.TasksController.Toggle | TaskManagerApi/Controllers/TasksController.cs:72-79 | keeps Valid(); the new fields and the response are those of TaskStore.Toggle on the old fields |
| Controllers.TasksController.Delete | TaskManagerApi/Controllers/TasksController.cs:86-93 | keeps Valid(); the new fields and the response are those of TaskStore.Delete on the old fields |

## Left out

- `TaskManagerApi/Program.cs` is not modelled. It only configures the web host, Swagger and a permissive CORS policy.
- Routing attributes and JSON binding are not modelled. The actions take already-bound values as parameters.
- ASP.NET's automatic model validation is not modelled. Under `[ApiController]` it can answer 400 before an action runs.
- `Response` does not model how the framework builds result objects. `NotFound` and `BadRequest` carry only the message text of the `{ message = ... }` object. `Created` carries only the id its location header points at.
- Controllers.TasksController.Update: takes the bound description as a non-null `string`, and so do `TaskStore.Update` and the `UpdateRequest` case of `TaskStore.Request`. `TaskItem.Description` is declared as a non-nullable `string` initialised to `string.Empty` (TaskManagerApi/Models/TaskItem.cs:6). A null can reach the action only when nullable reference types are off. Then `task.Description = null` (TaskManagerApi/Controllers/TasksController.cs:63) stores null, and GetAll and GetById return it. That case is not modelled.
- Concurrency is not modelled. In the source, `tasks` and `nextId` are static and shared by all request handlers with no locking. The model is one controller object used by one request at a time.
- Reference aliasing is not modelled. Create stores the caller's own `newTask` object, and GetAll hands out the live list. The model keeps tasks as values and updates them by index.
- TaskStore.Create: `nextId` is an unbounded integer. The C# `int` would wrap to a negative value after 2^31 - 1 creations, which would break the id invariant. That wrap-around is not modelled.
- `IsWhiteSpace` works on Dafny characters, which are Unicode scalar values. .NET works on UTF-16 code units. Every white-space character is a single code unit, so this changes no answer.

## Notes

- Create and Update treat descriptions differently, and the model keeps the difference. Create refuses a null, empty or all-white-space description, but stores an accepted one untrimmed. Update stores any text, including the empty string.
- Update, Toggle and Delete act on the first task with the id, as `FirstOrDefault` does. Under the store invariant, that task is the only one with the id.
- Delete uses `List.Remove` on the object just found. No earlier element can be that object, because earlier elements have other ids. So the model removes the element at the found index.
- If nullable reference types are on, `[ApiController]` treats the non-nullable `Description` as implicitly required. The framework then answers 400 itself, before the action runs, for a null, empty or all-white-space description on both POST and PUT. So `Update(id, "")` succeeding, and Create's own `BadRequest("Description cannot be empty.")` branch, describe the action, not necessarily the deployed endpoint.
- `Controllers.CreateDeleteCreateClient` is a caller of the class: on a fresh controller, create, delete 1, create gives ids 1 and 2, and GetById(1) then answers NotFound. It proves this from the method contracts alone, and so repeats `TaskStore.CreateDeleteCreate` at the class level.
