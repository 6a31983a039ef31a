# ToDoOrNotToDo task core in Dafny

This project models the core of the ToDoOrNotToDo to-do application and proves properties about it. The core has these parts:

- **Task lifecycle service** (`TasksService`). It keeps the Tasks table and provides four operations:
  - list all tasks: active ones first by creation time, then completed ones, most recently completed first;
  - create an active task;
  - apply a partial update that keeps the completion time in step with the completion flag;
  - delete by id.
- **Request validation** (`ValidationService`). It checks titles and the create and update requests. Each failure is an error with one field and one message.
- **Mapping** (`Mapping`) between the entity, the DTO returned to clients and the incoming requests.
- **The update request's `IsValid` gate.**
- **The front end's event bus**, together with its `showError` helper.

Modules:

- `Wrappers`: `Option` (C#'s nullable values) and `Outcome` (a method either returns or throws).
- `Text`: `string.Trim`, `IsNullOrWhiteSpace` and `IsNullOrEmpty`, with their laws.
- `Data`: `TaskRow`, the row the table keeps, with its record invariant: there is a completion time exactly when a task is completed, and a task is updated no earlier than it was created. `TaskEntity` is the entity object, whose properties the services assign in place.
- `Dtos`: the request and response shapes, and `UpdateTaskRequest.IsValid`.
- `Validation`: the three validation checks and the error value they produce.
- `TaskOrder`: the ordering the listing applies, given as a stable insertion sort per segment.
- `TasksService`: the table as a class. It holds a map from id to row and the next key the store generates. Its methods are the service's four operations.
- `Mapping`: `ToDto`, `ToEntity` and `UpdateFromRequest`. `UpdateFromRequest` comes in two forms: as the code is written, and corrected (see Findings).
- `EventBus`: the event table as a class. `On` returns an unsubscriber, and `Unsubscribe` calls it. `Emit` returns the calls made. `Off`, `RemoveAllListeners` and `ShowError` complete the API.

Clock readings, and which listener callbacks throw, are parameters. `UpdateAsync` reads the clock twice: once when it marks a task completed and once for UpdatedAt. The model therefore takes two readings. Its lemmas require that the clock has not gone back since that task was last updated.

Where the documentation and the code disagree, the model follows the code:

- `CreateAsync` stores the title exactly as given. The interface comment in `ITasksService.cs:16` says the title will be trimmed, but the code does not trim it.
- Creation does not validate the title at all. The title may be blank, so "a stored title is non-blank" is not an invariant of the service, and the record invariant above does not include it.
- `UpdateTaskRequest.Id` is declared as a plain `int`, but `ValidationService` tests `Id.HasValue`. The model gives the id an optional value, so that the "Id is required." branch can be reached.

## Model

| member | source | states |
|---|---|---|
| Text.Trim | src/backend/ToDoOrNotToDo.Api/Services/ValidationService.cs:30 | The result is no longer than the input and has no white space at either end. It is empty exactly when the input is white space only. |
| Text.TrimIsInfix | src/backend/ToDoOrNotToDo.Api/Services/ValidationService.cs:30 | The input is the trimmed string with white space, and nothing else, before and after it: trimming cuts only leading and trailing white space. |
| Text.TrimIdempotent | src/backend/ToDoOrNotToDo.Api/Services/TasksService.cs:69-72 | Trimming a trimmed title changes nothing. |
| Text.TrimIgnoresPadding | src/backend/ToDoOrNotToDo.Api/Services/ValidationService.cs:30 | Adding white space at either end of a string leaves its trimmed form unchanged. |
| Validation.ValidationError.Errors | src/backend/ToDoOrNotToDo.Api/Exceptions/ValidationException.cs:14-17 | The exception's error table has exactly one field, the one given, mapped to exactly one message, the one given. |
| Validation.ValidateTitle | src/backend/ToDoOrNotToDo.Api/Services/ValidationService.cs:28-41 | Passes exactly when the trimmed length is between 1 and 100, so exactly 100 is accepted. Fails on field "title" with "Title cannot be empty." exactly when the title is white space only. Fails with "Title cannot exceed 100 characters." exactly when the trimmed length is over 100. The emptiness check therefore takes precedence. |
| Validation.ValidateTitleIgnoresPadding | src/backend/ToDoOrNotToDo.Api/Services/ValidationService.cs:30-40 | White space around a title never changes the verdict. |
| Validation.ValidateCreateTaskRequest | src/backend/ToDoOrNotToDo.Api/Services/ValidationService.cs:8-11 | Gives the same outcome as the title check on the request's title. |
| Validation.ValidateUpdateTaskRequest | src/backend/ToDoOrNotToDo.Api/Services/ValidationService.cs:13-26 | With no id it fails on field "id" with "Id is required.", whatever the other fields hold. It passes exactly when an id is present and either a supplied title passes the title check or, with no title, a completion flag is present. With a title it gives the title check's outcome, so a white-space title fails even when a flag is given. With neither title nor flag it fails on field "request" with the "At least one field" message. |
| Validation.ValidatedUpdateIsValid | src/backend/ToDoOrNotToDo.Api/DTOs/UpdateTaskRequest.cs:15 | A request that passes validation also passes the controller's IsValid gate. |
| Validation.IsValidDoesNotImplyValidated | src/backend/ToDoOrNotToDo.Api/Services/ValidationService.cs:16-19 | The converse fails: a request with a completion flag and no id passes IsValid but fails validation on "id". |
| Dtos.IsValidCharacterized | src/backend/ToDoOrNotToDo.Api/DTOs/UpdateTaskRequest.cs:15 | IsValid holds exactly when the title contains a non-white-space character or a completion flag is given. |
| Dtos.UpdateTaskRequest.IsValid | src/backend/ToDoOrNotToDo.Api/DTOs/UpdateTaskRequest.cs:15 | A request is valid exactly when a completion flag is given or a title is given whose trimmed form is non-empty. |
| Dtos.BlankRequestIsInvalid | src/backend/ToDoOrNotToDo.Api/DTOs/UpdateTaskRequest.cs:15 | A missing or white-space title with no completion flag is invalid. |
| Dtos.CompletionFlagIsEnough | src/backend/ToDoOrNotToDo.Api/DTOs/UpdateTaskRequest.cs:13-15 | A completion flag makes the request valid, true or false, whatever the title. |
| Dtos.IsValidIgnoresId | src/backend/ToDoOrNotToDo.Api/DTOs/UpdateTaskRequest.cs:7-15 | Changing the id never changes IsValid. |
| TaskOrder.Precedes | src/backend/ToDoOrNotToDo.Api/Services/TasksService.cs:23-29 | Among active tasks the earlier creation time goes first, and the id, ascending, breaks a tie. Among completed tasks the later completion time goes first, and the id, descending, breaks a tie. No row goes before itself. |
| TaskOrder.PrecedesTotal | src/backend/ToDoOrNotToDo.Api/Services/TasksService.cs:23-24 | Within a segment, two rows with different ids are always ordered one way or the other, because the id breaks every tie of the timestamp. |
| TaskOrder.InsertSorted | src/backend/ToDoOrNotToDo.Api/Services/TasksService.cs:23-24 | Inserting into a sorted segment keeps it sorted. |
| TaskOrder.SortBy | src/backend/ToDoOrNotToDo.Api/Services/TasksService.cs:28-29 | OrderBy then ThenBy gives a permutation of its input with no row placed after one it should precede. For completed tasks that means by completion time, then id, both descending. |
| TaskOrder.Select | src/backend/ToDoOrNotToDo.Api/Services/TasksService.cs:22 | The Where clause keeps every row of the requested completion state, as many times as it occurs, and no other row. |
| TaskOrder.OrderTasks | src/backend/ToDoOrNotToDo.Api/Services/TasksService.cs:18-31 | The listing is a permutation of the rows read. Every active task comes before every completed one. Active tasks run by creation time, then id, ascending. Completed tasks run by completion time, then id, descending. |
| TaskOrder.OrderTasksStrict | src/backend/ToDoOrNotToDo.Api/Services/TasksService.cs:21-31 | When ids are unique, every row of the listing is strictly before every later row. The order is total. |
| TaskOrder.StrictlyListedUnique | src/backend/ToDoOrNotToDo.Api/Services/TasksService.cs:21-31 | Two strictly ordered sequences of the same rows are equal. |
| TaskOrder.OrderOfOrdered | src/backend/ToDoOrNotToDo.Api/Services/TasksService.cs:21-31 | Ordering a listing that is already in display order, with unique ids, returns it unchanged. |
| TaskOrder.OrderIndependentOfEnumeration | src/backend/ToDoOrNotToDo.Api/Services/TasksService.cs:18 | When ids are unique, the listing does not depend on the order in which the store returned the rows. |
| TasksService.Updated | src/backend/ToDoOrNotToDo.Api/Services/TasksService.cs:52-107 | An update never changes the id or the creation time. The completion flag becomes the supplied one when a flag is given and otherwise stays. The row is unchanged exactly when the has-changes flag stays false. |
| TasksService.UpdatedTitle | src/backend/ToDoOrNotToDo.Api/Services/TasksService.cs:67-75 | The title changes exactly when the argument is not white space only and its trimmed form differs from the current title. The stored value is then that trimmed form, which is non-empty and already trimmed. |
| TasksService.UpdatedCompletion | src/backend/ToDoOrNotToDo.Api/Services/TasksService.cs:78-97 | A flip to completed sets the completion time to the clock reading. A flip back clears it. A missing flag, or one equal to the current state, leaves both the flag and the completion time alone. |
| TasksService.UpdatedTimestamp | src/backend/ToDoOrNotToDo.Api/Services/TasksService.cs:100-104 | UpdatedAt becomes the second clock reading exactly when something changed, and otherwise stays. |
| TasksService.UpdatedConsistent | src/backend/ToDoOrNotToDo.Api/Services/TasksService.cs:78-104 | An update keeps the record invariant: a completion time exactly when completed, and created no later than updated. |
| TasksService.UpdateIdempotent | src/backend/ToDoOrNotToDo.Api/Services/TasksService.cs:64-104 | Sending the same update a second time changes nothing, whatever the clock then reads. |
| TasksService.ApplyTitle | src/backend/ToDoOrNotToDo.Api/Services/TasksService.cs:66-75 | The title assignment leaves the entity's row retitled and nothing else changed. The local flag it raises is exactly "the argument is not white space only and its trimmed form differs from the title". |
| TasksService.ApplyCompletion | src/backend/ToDoOrNotToDo.Api/Services/TasksService.cs:77-97 | The completion assignments leave the entity's row with the new flag and completion time and nothing else changed. The local flag it raises is exactly "a flag is given and differs from the current one". |
| TasksService.UpdatedInSteps | src/backend/ToDoOrNotToDo.Api/Services/TasksService.cs:64-104 | The update is the title step, then the completion step, then the UpdatedAt stamp when either step changed something. The title step never touches the completion flag. |
| TasksService.Retitled | src/backend/ToDoOrNotToDo.Api/Services/TasksService.cs:66-75 | The title step changes only the title. It changes exactly when the argument is not white space only and its trimmed form differs from the current title, and then to that trimmed form, which is non-empty and has no white space at either end. |
| TasksService.Recompleted | src/backend/ToDoOrNotToDo.Api/Services/TasksService.cs:77-97 | The completion step changes only the flag and the completion time. The flag becomes the one given. The completion time changes only on a flip, and a consistent row stays consistent. |
| TasksService.UpdatedTable | src/backend/ToDoOrNotToDo.Api/Services/TasksService.cs:52-107 | After an update the table has the same keys. The row under the id, if present, is its update, and every other row stays. With an absent id or nothing to change, the table is exactly as it was. |
| TasksService.UpdatedTableKeepsInvariants | src/backend/ToDoOrNotToDo.Api/Services/TasksService.cs:52-107 | An update keeps every row under its own issued key. It keeps every row consistent when the clock has not gone back since the row was last updated. |
| Data.TaskEntity.FromRow | src/backend/ToDoOrNotToDo.Api/Services/TasksService.cs:54 | The entity the store materialises for a found row holds exactly that row. |
| TasksService.TasksService.constructor | src/backend/ToDoOrNotToDo.Api/Data/AppDbContext.cs:22 | An empty table whose first generated key is 1. |
| TasksService.TasksService.ListAsync | src/backend/ToDoOrNotToDo.Api/Services/TasksService.cs:15-32 | The result holds every stored row exactly once and nothing else. It is ordered active first, each segment in its own order. It is the same answer for every order in which the store could have returned the rows. |
| TasksService.ListingsAgree | src/backend/ToDoOrNotToDo.Api/Services/TasksService.cs:18 | Any two listings of the same table are ordered into the same sequence. |
| TasksService.ReadAll | src/backend/ToDoOrNotToDo.Api/Services/TasksService.cs:18 | Reading the table yields every stored row exactly once and nothing else, whatever order the enumeration takes. |
| TasksService.TasksService.CreateAsync | src/backend/ToDoOrNotToDo.Api/Services/TasksService.cs:34-50 | Adds one task under a key never issued before. The new task is active, has no completion time, keeps the title exactly as given, and has both timestamps at the clock reading. No other task changes. The table invariant and the record invariant are kept. |
| TasksService.TasksService.UpdateAsync | src/backend/ToDoOrNotToDo.Api/Services/TasksService.cs:52-107 | The table becomes `UpdatedTable` of the old one, so an absent id leaves it unchanged and nothing is written when nothing changed. It returns null exactly when the id is absent. Otherwise it returns a fresh entity holding the stored row. The key counter is untouched, and both invariants are kept. |
| TasksService.TasksService.DeleteAsync | src/backend/ToDoOrNotToDo.Api/Services/TasksService.cs:109-120 | Returns true and removes only that id when it is present. Otherwise it returns false and changes nothing. Keys are never reissued. |
| TasksService.ExampleOrder | src/backend/ToDoOrNotToDo.Api/Services/TasksService.cs:21-31 | An active task is listed before a completed one. |
| TasksService.Lifecycle | src/backend/ToDoOrNotToDo.Api/Services/TasksService.cs:15-120 | A run on a fresh table: two creates get keys 1 and 2, and completing task 1 lists task 2 first. An update of a missing id returns null. A second delete of the same id returns false. |
| Mapping.ToDto | src/backend/ToDoOrNotToDo.Api/Services/Mapping.cs:11-22 | The DTO describes exactly the entity's row: id, title, flag and all three timestamps unchanged. |
| Mapping.ToDtoInjective | src/backend/ToDoOrNotToDo.Api/Services/Mapping.cs:13-21 | Two entities with equal DTOs hold equal rows, so nothing is lost. |
| Mapping.ToEntity | src/backend/ToDoOrNotToDo.Api/Services/Mapping.cs:27-39 | A new entity: active, no completion time, created and updated at the same instant, with the untrimmed request title and key 0. It satisfies the record invariant. |
| Mapping.AppliedAsWritten | src/backend/ToDoOrNotToDo.Api/Services/Mapping.cs:44-69 | The title becomes the untrimmed request title exactly when that title is not null or white space. The flag becomes the request's flag whenever one is given. The completion time never changes. UpdatedAt is always the clock reading. The id and creation time stay. |
| Mapping.UpdateFromRequest | src/backend/ToDoOrNotToDo.Api/Services/Mapping.cs:44-69 | The in-place assignments leave the entity as `AppliedAsWritten` describes. |
| Mapping.AsWrittenBreaksConsistency | src/backend/ToDoOrNotToDo.Api/Services/Mapping.cs:51-65 | As written, any request that flips the completion flag of a consistent entity leaves it inconsistent. |
| Mapping.AsWrittenCompletesWithoutTimestamp | src/backend/ToDoOrNotToDo.Api/Services/Mapping.cs:53-58 | Completing an active task leaves it completed with no completion time. |
| Mapping.AppliedAsIntended | src/backend/ToDoOrNotToDo.Api/Services/Mapping.cs:51-65 | Corrected: completing sets the completion time to the clock reading, and un-completing clears it. Otherwise the completion time stays. Title, flag and UpdatedAt behave as written. |
| Mapping.UpdateFromRequestCorrected | src/backend/ToDoOrNotToDo.Api/Services/Mapping.cs:44-69 | The corrected in-place assignments leave the entity as `AppliedAsIntended` describes. |
| Mapping.AsIntendedKeepsConsistency | src/backend/ToDoOrNotToDo.Api/Services/Mapping.cs:51-68 | The corrected update keeps the record invariant. |
| Mapping.AsIntendedAgreesWithService | src/backend/ToDoOrNotToDo.Api/Services/Mapping.cs:51-68 | When something changes, the corrected mapping and the service's update agree on the flag, the completion time and UpdatedAt. They also agree on the title whenever the request's title is already trimmed. |
| EventBus.Without | src/frontend/src/services/eventBus.js:25 | No occurrence of the callback remains, and the list never grows. |
| EventBus.WithoutCounts | src/frontend/src/services/eventBus.js:25 | Every other callback is kept exactly as often as it occurred, and the list shrinks by the number of occurrences removed. |
| EventBus.WithoutDistributes | src/frontend/src/services/eventBus.js:25 | Filtering a concatenation is the concatenation of the filtered parts, so the remaining callbacks keep their original order. |
| EventBus.WithoutAbsent | src/frontend/src/services/eventBus.js:25 | Filtering out a callback that is not subscribed changes nothing. |
| EventBus.SubscribeThenUnsubscribe | src/frontend/src/services/eventBus.js:17-26 | Subscribing a new callback and then calling its unsubscriber restores the previous list. |
| EventBus.ErrorsOf | src/frontend/src/services/eventBus.js:36-42 | The console log of one emit holds at most one entry per callback run. Each entry names the event and a subscribed callback that threw. There are no entries when no callback throws. |
| EventBus.ErrorsOfCounts | src/frontend/src/services/eventBus.js:36-42 | A throwing callback is logged exactly as many times as it is subscribed, and a callback that does not throw is never logged. |
| EventBus.ErrorsOfLogsEveryThrow | src/frontend/src/services/eventBus.js:37-41 | Every run of a callback that throws leaves an entry naming the event and that callback. |
| EventBus.EventBus.constructor | src/frontend/src/services/eventBus.js:7-9 | A bus with no events. |
| EventBus.EventBus.On | src/frontend/src/services/eventBus.js:17-27 | Appends the callback to the end of the event's list, creating the list when absent. Every other event keeps its list. Returns the unsubscriber for that event and callback. |
| EventBus.EventBus.Unsubscribe | src/frontend/src/services/eventBus.js:24-26 | When the event has a list, every occurrence of the callback is removed from it and nothing else changes. When the list was removed first, the call throws and nothing changes. |
| EventBus.EventBus.Emit | src/frontend/src/services/eventBus.js:34-44 | Calls every subscribed callback once, in subscription order, with the same data. Callbacks after a throwing one still run, and each throw is logged. With no list nothing is called. The table is not changed. |
| EventBus.EventBus.Off | src/frontend/src/services/eventBus.js:50-54 | Deletes the event's entry and nothing else. Without an entry it changes nothing. |
| EventBus.EventBus.RemoveAllListeners | src/frontend/src/services/eventBus.js:59-61 | Empties the table, so afterwards every event has no listeners. |
| EventBus.ErrorPayload | src/frontend/src/services/eventBus.js:69 | The payload has the options' keys plus "message". Every option keeps its value. The message appears under "message" unless an option of that name overrides it. |
| EventBus.ShowError | src/frontend/src/services/eventBus.js:68-70 | An emit of 'show-error' carrying the payload: each listener of that event is called in order with it. |
| EventBus.Lifecycle | src/frontend/src/services/eventBus.js:17-61 | On a fresh bus, two subscribers hear an emit in order, even when the first throws and is logged. After the first unsubscribes, only the second hears it. After `off`, nobody hears it, and unsubscribing throws. |

## Left out

- HTTP transport is not part of this model: `TasksController.cs`, `TestController.cs`, `ErrorHandlingFilter.cs` and `Program.cs`. Those files cover routing, model binding, status codes and dependency injection. For the record, the delete endpoint always answers 204, whether or not a row existed (`TasksController.cs:95`).
- Entity Framework and SQLite are not modelled. The table is a map with a key counter, and `SaveChangesAsync` is the assignment to that map. The schema configuration and the seed data are not modelled.
- Concurrency: each operation is atomic. Read-modify-write races between concurrent updates are not modelled.
- Time: `DateTime.UtcNow` is an integer tick passed in by the caller. Wall-clock values and their ISO-8601 formatting are not modelled.
- Validation.ValidateTitle: counts a title's length in Unicode scalar values, while C#'s `Length` counts UTF-16 code units. A title with a character outside the Basic Multilingual Plane (an emoji, say) counts 1 here and 2 in the service, so up to 100 such characters pass here while the service rejects more than 50 as too long.
- Text.IsWhiteSpace: uses six ASCII white-space characters instead of the Unicode table .NET consults. The lemmas do not depend on which characters they are.
- TasksService.TasksService.ListAsync: returns the rows, not the tracked entity objects LINQ yields.
- TasksService.TasksService.CreateAsync and TasksService.TasksService.UpdateAsync: do not model the validation attributes on the entity. The database's length limit on Title is not modelled either.
- `Models/TaskEntity.cs`, an older entity with a description and a nullable UpdatedAt, is not part of this model. Nothing in the repository uses it.
- JSON serialisation is not modelled, including the omission of a null CompletedAt.
- `api.js`, `effects.js` and `router/index.js` are not part of this model. They are concerned with fetch, audio, confetti, local storage and routing.
- EventBus.EventBus.Emit: callbacks are opaque ids. Their effects are not modelled, including a callback that subscribes or unsubscribes while an emit is running. Which callbacks throw is a parameter. The text of the console message is not modelled; only the event and the callback are logged.
- EventBus.EventBus.On: event names that collide with properties inherited from JavaScript's object prototype are not modelled.
- EventBus.ErrorPayload: option values are strings, numbers or booleans only. Nested objects are not modelled.

## Findings

| source | as written | input that shows it | evidently intended | confidence | as-written member | corrected member |
|---|---|---|---|---|---|---|
| src/backend/ToDoOrNotToDo.Api/Services/Mapping.cs:51-65 | The entity's IsCompleted is assigned the request's flag before the two conditions compare the request's flag with it. They then always see equal values, so CompletedAt is never set or cleared. | An active entity (IsCompleted false, CompletedAt null) and a request with IsCompleted true: the result is completed with CompletedAt null. | Set CompletedAt to now when an active task is completed, and clear it when a completed task is reopened, as the comments on lines 55 and 60 say. The comparison should use the flag the entity had before the assignment. | not executed | Mapping.AsWrittenBreaksConsistency | Mapping.AsIntendedKeepsConsistency |
