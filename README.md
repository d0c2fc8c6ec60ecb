# TaskAdder core, modelled in Dafny

TaskAdder is a small task manager. Users register and log in. They then create, list,
edit and delete their own to-do items, each with a due date. This project models the
parts of it whose rules can be stated precisely:

- **The task routes** (`backend/routes/tasks.js`). `TaskRoutes.TaskStore` is a class that
  holds the task collection as a sequence in insertion order.
  - The two GET handlers are functions of that state.
  - POST, PUT and DELETE are methods that change it.
  - Every lookup filters on the pair (task id, acting user). A foreign task therefore
    answers exactly as a missing one does (404).
  - The list is the caller's tasks, newest first. A stable insertion sort on `createdAt`
    provides the ordering.
- **The server rule chains** (`backend/middleware/validation.js`). `Validation` turns the
  registration, login and task rules into lists of errors. `HandleValidationErrors` then
  either passes the sanitized body to the handler or answers 400 'Validation failed'.
  `TaskStore.Create` and `TaskStore.Update` run `ValidateTask` first, as the route wiring
  does. A rejected body never reaches the collection.
- **The client forms** (`Register.tsx`, `Login.tsx`, `TaskForm.tsx`).
  - Each form's state is a record.
  - `Change` models `handleChange`, `Validate` models `validate` and `Submit` models the
    guard in `handleSubmit`.
  - The email check `/^[^\s@]+@[^\s@]+\.[^\s@]+$/` is written twice in the source, with
    the same text both times. Here it is defined once (`EmailFormat.ValidateEmail`) and
    proved equal to the pattern's language (`EmailFormat.MatchesPattern`).
- **The task card list** (`TaskList.tsx`). It covers the due-date colour
  (`ceil((due - now) / 86400000)` against 0 and 3), the confirmation guard on delete and
  the empty state.
- **The dashboard** (`Dashboard.tsx`). The three local list updates are prepend,
  map-replace and filter. Pagination uses five rows per page: the page count, the slice,
  the row numbers, the bar and its buttons.

The acting user id is a parameter. So are the library predicates `isEmail`, `isISO8601`
and `normalizeEmail`, the id and timestamp of a new document, the date parser and the
current time. A date that does not parse (JavaScript's Invalid Date) is `None`; every
comparison with it is false, and the model keeps that. The whitespace class `\s` that
`trim` and the email pattern share is `Text.IsWhitespace`, written out character by
character.

Behaviours of the code that the model states outright:

- **Blank task names.** The server's `notEmpty` check runs before `trim`. A task name made
  only of spaces therefore passes the rule chain and reaches the handler as the empty
  string (`Validation.BlankNameIsAcceptedAsEmpty`). The client form rejects such a name.
- **Descriptions on PUT.** A PUT whose body has no description removes the stored one,
  because the handler assigns `undefined`.
- **Validation errors.** The 400 answer carries an array of field errors.
- **Out-of-range pages.** After a delete, the page number is not brought back into range
  (see Findings).
- **Password length.** The registration form counts UTF-16 units and the server counts
  characters, so some passwords pass the form and are then refused (see Findings).

## Model

| member | source | states |
|---|---|---|
| `Numeric.CeilDiv` | frontend/src/components/TaskList.tsx:20 | `Math.ceil(a / b)` on integers: the unique `r` with `(r-1)*b < a <= r*b` |
| `Text.Trim` | backend/middleware/validation.js:44 | `trim()` leaves no whitespace at either end; it is empty iff the input is all whitespace |
| `Text.TrimIsMiddle` | backend/middleware/validation.js:44 | for every input, `trim()` is one unbroken slice of it, with only whitespace before and after that slice |
| `Text.Utf16Length` | frontend/src/components/Register.tsx:38 | `length` counts one UTF-16 unit per character up to U+FFFF and two above, so it lies between the character count and twice it |
| `Text.Utf16LengthIsCount` | frontend/src/components/Register.tsx:38 | `length` equals the character count iff no character lies above U+FFFF |
| `EmailFormat.ValidateEmail` | frontend/src/components/Register.tsx:8-10 | no whitespace, exactly one '@' with something before it, and a '.' after it that is neither first nor last holds iff the string matches `/^[^\s@]+@[^\s@]+\.[^\s@]+$/` |
| `Validation.HandleValidationErrors` | backend/middleware/validation.js:4-13 | the next handler runs iff the error list is empty; otherwise the answer is 400 'Validation failed' with all the errors |
| `Validation.ValidateRegistration` | backend/middleware/validation.js:16-25 | passes iff the email is valid and the password has at least 6 characters; each failing rule reports on its own field; on success the email is normalized |
| `Validation.ValidateLogin` | backend/middleware/validation.js:28-37 | passes iff the email is valid and the password is non-empty; there is no length minimum |
| `Validation.RegistrationPasswordBoundary` | backend/middleware/validation.js:21-23 | a 5-character password is rejected; a 6-character one passes the length rule |
| `Validation.LoginHasNoMinimumLength` | backend/middleware/validation.js:33-35 | any non-empty password passes login validation |
| `Validation.ValidateTask` | backend/middleware/validation.js:40-52 | passes iff the untrimmed name is non-empty and the due date passes the ISO 8601 check; the name is trimmed; the description is trimmed only when present and never causes an error |
| `Validation.DescriptionIsOptional` | backend/middleware/validation.js:48-50 | changing or removing the description never changes the verdict |
| `Validation.BlankNameIsAcceptedAsEmpty` | backend/middleware/validation.js:41-44 | an all-whitespace name passes and reaches the handler as "" |
| `TaskRoutes.OwnedBy` | backend/routes/tasks.js:12 | the `{ user }` query keeps exactly the tasks of that owner |
| `TaskRoutes.OwnedByConcat` | backend/routes/tasks.js:12 | selecting by owner distributes over concatenation of the collection |
| `TaskRoutes.OwnedByReplace` | backend/routes/tasks.js:56-60 | replacing a task by one with the same owner leaves every other owner's selection unchanged |
| `TaskRoutes.InsertByAge` | backend/routes/tasks.js:12-14 | inserting into a newest-first list keeps it newest first and adds exactly that task |
| `TaskRoutes.SortNewestFirst` | backend/routes/tasks.js:12-14 | `sort({createdAt: -1})` yields a newest-first permutation of its input |
| `TaskRoutes.NewestGoesFirst` | backend/routes/tasks.js:12-14 | a task newer than all the others is first in the sorted list, followed by the previous order |
| `TaskRoutes.FindOwned` | backend/routes/tasks.js:50 | `findOne({_id, user})` finds a position holding that id and owner, or none iff no task has both |
| `TaskRoutes.TaskStore.List` | backend/routes/tasks.js:10-20 | 200 with exactly the caller's tasks (as a multiset), newest first |
| `TaskRoutes.TaskStore.Get` | backend/routes/tasks.js:92-107 | 200 iff a task with that id is owned by the caller; otherwise the single 404 answer |
| `TaskRoutes.TaskStore.Create` | backend/routes/tasks.js:24-41 | a rejected body gives 400 and no change; otherwise 201 and one appended task, owned by the caller (never by a body field), carrying the sanitized fields; it can then be fetched; other users' tasks are unchanged |
| `TaskRoutes.TaskStore.Update` | backend/routes/tasks.js:45-66 | a rejected body gives 400, an absent or foreign task gives 404, and both change nothing; otherwise only the name, description and due date of that task are replaced, and ids, owners, timestamps and other users' tasks are kept |
| `TaskRoutes.TaskStore.Delete` | backend/routes/tasks.js:70-88 | an absent or foreign task gives 404 and no change; otherwise exactly that task is removed, the order of the rest is kept, and a later GET is 404 |
| `TaskRoutes.RemoveAtIds` | backend/routes/tasks.js:74-77 | removing one task keeps ids unique and leaves no task with its id |
| `TaskRoutes.RemoveAtOthers` | backend/routes/tasks.js:74-77 | removing one user's task leaves every other owner's selection unchanged |
| `TaskRoutes.ForeignLooksMissing` | backend/routes/tasks.js:96-100 | asking for another user's task gives the same answer as asking for a non-existent id |
| `Register.Change` | frontend/src/components/Register.tsx:25-31 | the named field takes the value and only its error is cleared; other fields and errors are unchanged |
| `Register.Validate` | frontend/src/components/Register.tsx:33-46 | email error iff the pattern does not match; password error iff shorter than 6 UTF-16 units; confirmation error iff it differs; valid iff no error |
| `Register.ValidateCorrected` | frontend/src/components/Register.tsx:33-46 | as `Validate`, but the password error holds iff the password has fewer than 6 characters, the server's count |
| `Register.Submit` | frontend/src/components/Register.tsx:48-54 | the register request is sent iff validation passes, and it carries the typed credentials without the confirmation |
| `Register.AstralPasswordIsSentThenRefused` | frontend/src/components/Register.tsx:38-40 | with a well-formed email, the password "abcd😀" (six UTF-16 units, five characters) is sent by the form and refused by the server's length rule |
| `Register.SubmitCorrected` | frontend/src/components/Register.tsx:48-54 | with the corrected validation, the request is sent iff no error, carrying the typed credentials |
| `Register.SentFormPassesServerPasswordRule` | backend/middleware/validation.js:21-23 | with the corrected count, a registration the client sends passes the server's length rule; it can only be refused for the email |
| `Register.FilledFormIsSent` | frontend/src/components/Register.tsx:33-50 | typing a well-formed email and a matching password of 6 or more characters gets exactly those credentials sent |
| `Login.Change` | frontend/src/components/Login.tsx:26-32 | the named field takes the value and only its error is cleared |
| `Login.Validate` | frontend/src/components/Login.tsx:34-44 | email error iff the pattern does not match; password error iff empty; valid iff no error |
| `Login.Submit` | frontend/src/components/Login.tsx:46-52 | the login request is sent iff validation passes, with the typed credentials |
| `Login.FilledFormIsSent` | frontend/src/components/Login.tsx:34-52 | from the initial form, typing a well-formed email and any non-empty password gets exactly those credentials sent |
| `Login.SentFormPassesServerPasswordRule` | frontend/src/components/Login.tsx:39-41 | the client password rule coincides with the server's; a sent login can only be refused for the email |
| `TaskForm.DatePart` | frontend/src/components/TaskForm.tsx:23 | `split('T')[0]` is the longest prefix without 'T' |
| `TaskForm.Prefill` | frontend/src/components/TaskForm.tsx:18-26 | in edit mode the name is copied, a missing description becomes '', and the due date is the date part of its ISO form; without a task nothing changes |
| `TaskForm.Change` | frontend/src/components/TaskForm.tsx:28-36 | the named field takes the value and only its error is cleared |
| `TaskForm.Midnight` | frontend/src/components/TaskForm.tsx:46-47 | `setHours(0,0,0,0)` is the start of the day containing `now` |
| `TaskForm.Validate` | frontend/src/components/TaskForm.tsx:38-55 | name error iff the name is all whitespace; "required" iff the due date is empty; "in the past" iff it parses to before today's midnight; valid iff no error |
| `TaskForm.PastMeansEarlierDay` | frontend/src/components/TaskForm.tsx:46-51 | a due instant is "in the past" iff its day is before today's; later today is accepted |
| `TaskForm.Submit` | frontend/src/components/TaskForm.tsx:57-61 | `onSubmit` is called iff validation passes, with the form data unchanged |
| `TaskForm.EmptyFormIsBlocked` | frontend/src/components/TaskForm.tsx:11-16 | submitting the untouched add form sends nothing and shows "Task name is required." and "Due date is required." |
| `TaskForm.SentNameSurvivesServer` | frontend/src/components/TaskForm.tsx:40-42 | a name the form lets through passes the server check and is non-empty after the server trims it |
| `TaskList.StatusColor` | frontend/src/components/TaskList.tsx:16-25 | red iff overdue by at least a full day, yellow iff between a day overdue and 3 days ahead, green otherwise (and for an unparsable date) |
| `TaskList.UrgencyIsMonotone` | frontend/src/components/TaskList.tsx:19-24 | with `now` fixed, a later due date never gives a more urgent colour |
| `TaskList.OverdueUnderADayIsYellow` | frontend/src/components/TaskList.tsx:20-22 | a task overdue by less than a day has diffDays 0 and is yellow |
| `TaskList.HandleDelete` | frontend/src/components/TaskList.tsx:27-31 | `onDelete(id)` is called iff the user confirms |
| `TaskList.Render` | frontend/src/components/TaskList.tsx:33-44 | the empty state iff the list is empty; otherwise one card per task in order, with its colour |
| `Dashboard.AfterFetch` | frontend/src/components/Dashboard.tsx:24-33 | on success the fetched list replaces the tasks, on failure they stay; loading ends either way |
| `Dashboard.HandleCreate` | frontend/src/components/Dashboard.tsx:35-44 | the created task is at index 0, the length grows by one, and the old list follows unchanged |
| `Dashboard.ReplaceById` | frontend/src/components/Dashboard.tsx:49 | same length; each entry with that id becomes the updated task and the others are kept |
| `Dashboard.HandleUpdate` | frontend/src/components/Dashboard.tsx:46-55 | on success the list is map-replaced by id; on failure nothing changes |
| `Dashboard.RemoveById` | frontend/src/components/Dashboard.tsx:60 | no entry with that id remains; every other entry remains, in its relative order |
| `Dashboard.RemoveByIdCounts` | frontend/src/components/Dashboard.tsx:60 | every entry with another id keeps its number of occurrences; entries with this id occur zero times |
| `Dashboard.HandleDelete` | frontend/src/components/Dashboard.tsx:57-65 | on success the list is filtered by id and the page number is left as it was |
| `Dashboard.TotalPages` | frontend/src/components/Dashboard.tsx:68 | `ceil(n / 5)`: the fewest pages of five that hold n tasks; 0 iff n is 0 |
| `Dashboard.Slice` | frontend/src/components/Dashboard.tsx:69 | `slice` clamps both bounds to the length and is empty when they cross |
| `Dashboard.PageSlice` | frontend/src/components/Dashboard.tsx:69 | at most 5 tasks; non-empty for pages 1..totalPages; empty past the last page; entry idx is list entry (page-1)*5+idx |
| `Dashboard.PagesArePrefix` | frontend/src/components/Dashboard.tsx:69 | pages 1..c together are the first 5c tasks |
| `Dashboard.AllPagesShowTheList` | frontend/src/components/Dashboard.tsx:68-69 | pages 1..totalPages, read in turn, are the whole list |
| `Dashboard.ListBody` | frontend/src/components/Dashboard.tsx:101-117 | Loading while loading; "No tasks found." past the last page; otherwise one row per task of the page: row k shows the page's k-th task, numbered `(page-1)*5 + k + 1`, its 1-based position in the whole list |
| `Dashboard.Pagination` | frontend/src/components/Dashboard.tsx:154-203 | the bar is shown iff there is more than one page; Prev is disabled iff page is 1; Next is disabled iff page equals totalPages; there is one button per page |
| `Dashboard.OnClick` | frontend/src/components/Dashboard.tsx:154-199 | with the bar shown, Prev goes to `page - 1` unless on page 1, Next to `page + 1` unless on the last page, and button i to page `i + 1`; with no bar, a disabled button or a missing one nothing changes; the tasks are never touched |
| `Dashboard.FirstFetchShowsFirstPage` | frontend/src/components/Dashboard.tsx:13-32 | the dashboard opens loading with no bar; after the first fetch, page 1 shows the first five tasks (or all, when fewer) numbered from 1, and "No tasks found." iff none came back |
| `Dashboard.PageStaysPositive` | frontend/src/components/Dashboard.tsx:160-161 | no click takes the page number below 1 |
| `Dashboard.DeleteStrandsOnEmptyPage` | frontend/src/components/Dashboard.tsx:60 | as written: with six tasks on page 2, deleting the sixth shows "No tasks found." and no pagination bar |
| `Dashboard.RemoveByIdAbsent` | frontend/src/components/Dashboard.tsx:60 | filtering out an id that is not present keeps the list |
| `Dashboard.RemoveByIdAppend` | frontend/src/components/Dashboard.tsx:60 | filtering distributes over appending one entry |
| `Dashboard.HandleDeleteClamped` | frontend/src/components/Dashboard.tsx:57-65 | corrected delete: while any task is left, the list area shows a non-empty page |
| `Agreement.CreateKeepsClientInStep` | frontend/src/components/Dashboard.tsx:38 | if the dashboard showed the server's list, prepending a task newer than all stored ones gives exactly the server's new list |

## Findings

| source | as written | input that shows it | evidently intended | confidence | as-written member | corrected member |
|---|---|---|---|---|---|---|
| frontend/src/components/Dashboard.tsx:60 | after a delete the page number is kept even when that page no longer exists; the bar is hidden once one page remains | six tasks, page 2, delete the sixth: 5 tasks, page 2, "No tasks found.", no bar to go back | move back to the last existing page | high; not executed | `Dashboard.DeleteStrandsOnEmptyPage` | `Dashboard.HandleDeleteClamped` |
| frontend/src/components/Register.tsx:38 | the form counts the password in UTF-16 units, while the server's `isLength({ min: 6 })` counts characters | "abcd😀": the form counts 6 and sends it; the server counts 5 and answers 400 | count characters as the server does, so that a password the form accepts is one the server accepts | medium; not executed | `Register.AstralPasswordIsSentThenRefused` | `Register.SentFormPassesServerPasswordRule` |

## Left out

- Authentication is not modelled. This covers the `auth` middleware, token signing and verification, and password hashing. `backend/middleware/auth.js` is not part of this model, so every route takes the acting user id as a parameter.
- The `/auth/register` and `/auth/login` handlers are not part of this model. Only their rule chains are modelled; duplicate-email checks and credential checks live in those handlers.
- The 500 answers of every `catch` block in the task routes are left out. Besides storage failures, they include one input-driven case. An `:id` that is not a well-formed ObjectId makes `findOne` and `findOneAndDelete` throw a cast error. The route then answers 500 "Server error", while `TaskStore.Get`, `TaskStore.Update` and `TaskStore.Delete` answer the 404 `NotFound` for it.
- The Task schema's own validators are not part of this model, since `backend/models/Task.js` is not part of it. A `required` rule on `taskName` would make `save()` reject an empty name and the route answer 500. `TaskStore.Create` and `TaskStore.Update` storing an empty name is therefore an assumption.
- Mongo internals are parameters. `_id` generation is a fresh id the caller supplies, and `createdAt` is a supplied timestamp. Casting the due-date string to a Date is not modelled, so the store keeps the string.
- TaskRoutes.TaskStore.Create: requires the supplied id to be absent from the collection. The database guarantees this for generated ids.
- TaskRoutes.SortNewestFirst: ties in `createdAt` keep storage order. The database leaves their order unspecified.
- The express-validator predicates `isEmail` and `isISO8601`, and the sanitizer `normalizeEmail`, are library code. They are function parameters.
- Request bodies hold only strings or absent fields. A JSON number or object in a field is not modelled.
- Validation.ValidateRegistration: the password length is the number of characters, so a surrogate pair counts once, as in express-validator's `isLength`. Recent releases of validator.js also leave out the variation selectors U+FE0E and U+FE0F, and the model does not. The client's count is `Text.Utf16Length` (see Findings).
- Date parsing, time zones and locale formatting are parameters. This covers `new Date(string)`, `toISOString` and `toLocaleDateString`. Times are milliseconds of the local clock. The time-zone shift that makes `new Date('YYYY-MM-DD')` a UTC instant is not modelled.
- TaskList.StatusColor: the division is exact integer ceiling. JavaScript divides in floating point, which agrees for every realistic time difference.
- Async interleaving of the dashboard handlers is not modelled. Each handler is one step taken after its request has answered; a failed request is `None` or `false`.
- `frontend/src/services/api.ts` is left out. It is HTTP plumbing and `localStorage` token handling.
- `ActionMenu.tsx`, markup, styling, toasts, navigation and the task-form modal's open/close state are left out. `window.confirm` is a boolean input.
