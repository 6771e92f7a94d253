# Users admin dashboard: edit controller and new-user form

A model of the two small state machines in the admin dashboard of the user
registry.

- **The users table** (`app/table.tsx`). Its state is the id of the row in edit mode (`editingUser`, a number or null) and a partial-user draft (`editedUserData`). Five handlers act on that state:
  - `handleEdit` seeds the draft with the whole row.
  - Each input's `onChange` overlays one key.
  - `handleSave` sends the draft as a PUT once the user confirms. It clears the state only when the PUT succeeds.
  - `handleCancelEdit` clears the state.
  - `handleDelete` sends a DELETE once the user confirms and changes nothing.

  A row is in edit mode when its `user_id` equals `editingUser`. In edit mode each cell is bound to `draft.f || user.f`. A text input shows that value. The type and gender drop-downs show it only when it is one of their option values; otherwise they show their first option. Cells are modelled as option values, not labels.
- **The new-user form** (`app/AddUser/page.tsx`). Its state is `formData`, which starts as `initialFormData`.
  - `handleChange` writes one named key: a checkbox's flag, or any other input's text.
  - `handleSubmit` runs only once the browser's check of the `required` inputs passes. It POSTs the data to `/auth/register` and resets the form on status 201 only.

Files:

- `js_values.dfy` (module `JsValues`): the values the state holds (text, numbers, flags), JavaScript truthiness, and the `||` operator.
- `users_table.dfy` (module `UsersTable`): the record, the draft, the display rule, the row test, the rendered rows, the transition functions and the class `UsersTableState`, whose methods are the handlers.
- `users_table_runs.dfy` (module `UsersTableRuns`): the sequences of actions the rendered table allows, and the invariants that hold along them.
- `add_user_form.dfy` (module `AddUserForm`): `initialFormData`, `newValue`, and the class `NewUserForm` with `handleChange` and `handleSubmit`.

The network calls and the confirmation prompts are parameters of the handlers:
- `confirmed` is the answer to `window.confirm`.
- `succeeded` says whether the axios request resolved.
- `SubmitOutcome` holds the response status, or records that the request threw.

Each handler returns the request it issues as a value (`TableRequest`, `RegisterRequest`). Each handler is atomic once these outcomes are known.

The code is simpler than a full record-editing controller, and the model keeps it so:
- A second `handleEdit` silently replaces the first session; it does not fail.
- The draft starts as a full copy of the row, not empty.
- No local list of records is updated after a save or a delete. `users` is a prop that no handler changes. The parent can pass a new list (another search); the state variables keep their values when it does, so the edited id can refer to a row that is no longer shown.
- There are no loading, saving or deleting flags.

## Model

| member | source | states |
|---|---|---|
| JsValues.Or | app/table.tsx:90 | JavaScript's or-operator: the left operand when present and truthy, else the right; the result is falsy only when both are |
| UsersTable.Snapshot | app/table.tsx:31-34 | the draft `handleEdit` installs holds every key of the record, each with the record's value |
| UsersTable.DisplayedValue | app/table.tsx:90 | an edit-mode input shows the draft entry when it has content, the record's value when the entry is missing or empty, and is never blank when the record's value is not |
| UsersTable.InEditMode | app/table.tsx:86 | the row test `editingUser === user.user_id`: `null` matches no row, and a match means the ids are equal |
| UsersTable.Shown | app/table.tsx:168-203 | a text input shows its bound value; a drop-down shows the value when it is one of its options, and its first option otherwise, so it always shows one of its options |
| UsersTable.RenderRow | app/table.tsx:83-207 | the row's id; edit mode exactly when the row test holds; in view mode every cell is the record's value; in edit mode every cell is what its input or drop-down makes of the bound value (the draft entry when truthy, else the record's value) |
| UsersTable.RenderTable | app/table.tsx:82-86 | one rendered row per record, in order, each in edit mode exactly when its id equals `editingUser` |
| UsersTable.EditRowCount | app/table.tsx:86 | with unique ids, exactly one row is in edit mode when `editingUser` is the id of a row, and none otherwise |
| UsersTable.OpenedRowShowsRecord | app/table.tsx:31-34 | right after `handleEdit(user)` the row is in edit mode; each cell shows its view-mode value through its input or drop-down; text inputs show exactly the view-mode value, and so does the whole row when the record's type and gender are among the options |
| UsersTable.UnlistedTypeShowsFirstOption | app/table.tsx:168-182 | a record whose type is not an option opens with the type drop-down on "admin", yet a save that does not touch it sends the record's own type |
| UsersTable.TypingShowsOnlyInThatInput | app/table.tsx:91-96 | after an `onChange` on field f, input f shows the typed text (or the record's value if the text is empty) and every other input shows what it showed before |
| UsersTable.EmptiedFieldShowsRecordButIsSent | app/table.tsx:40 | an emptied input shows the record's non-empty value, yet a confirmed save sends the empty string for that key |
| UsersTable.UsersTableState.constructor | app/table.tsx:27-29 | the initial state: no row in edit mode, empty draft, `users` as given |
| UsersTable.UsersTableState.Rows | app/table.tsx:82-83 | the table renders one row per user of the prop |
| UsersTable.UsersTableState.ReceiveUsers | app/page.tsx:14-28 | a new `users` prop from the parent replaces the rows and leaves `editingUser` and the draft as they were |
| UsersTable.UsersTableState.HandleEdit | app/table.tsx:31-34 | `editingUser` becomes the row's id and the draft the whole record, whatever session was active before |
| UsersTable.UsersTableState.ChangeField | app/table.tsx:91-96 | the key of the input takes the typed text; every other draft key and `editingUser` are unchanged |
| UsersTable.UsersTableState.HandleSave | app/table.tsx:36-48 | declined: no request, no change; confirmed: PUT of the draft as it stands to the clicked row's id; cleared on success, draft and `editingUser` kept exactly on failure |
| UsersTable.UsersTableState.HandleCancelEdit | app/table.tsx:50-53 | from any state: nothing in edit mode and an empty draft |
| UsersTable.UsersTableState.HandleDelete | app/table.tsx:55-64 | a DELETE of the row's id exactly when confirmed; changes no state (no `modifies`), whatever the request's outcome |
| UsersTableRuns.Enabled | app/table.tsx:86-229 | what the rendered table offers: edit and delete only on listed rows in view mode; save only on the row in edit mode; cancel and the inputs only while a listed row is in edit mode, the drop-downs only with their option values, no input for the id; a new prop at any time |
| UsersTableRuns.StepKeepsDraftShaped | app/table.tsx:31-53 | every offered event, new props included, keeps the draft's shape: empty when nothing is edited, otherwise every key with `user_id` equal to the edited id |
| UsersTableRuns.RunKeepsDraftShaped | app/table.tsx:31-53 | the draft's shape holds after any offered run, new props included |
| UsersTableRuns.IdleIsConsistent | app/table.tsx:28-29 | the initial state satisfies the run invariant |
| UsersTableRuns.StepKeepsConsistent | app/table.tsx:208-229 | every action on the table keeps the invariant: the draft is shaped and the edited id, if any, is a listed row |
| UsersTableRuns.RunKeepsConsistent | app/table.tsx:208-229 | while the prop stays the same, the invariant holds after any run of offered actions |
| UsersTableRuns.AtMostOneEditRow | app/table.tsx:209 | along any offered run, new props included, with unique ids on screen: at most one row is in edit mode, none while nothing is edited |
| UsersTableRuns.OneEditRowWhileEditing | app/table.tsx:209 | while the prop stays the same, with unique ids: exactly one row is in edit mode while `editingUser` is set, none otherwise |
| UsersTableRuns.SearchCanHideEditedRow | app/page.tsx:14-28 | opening a row and then receiving a list without it leaves `editingUser` and the full draft set while no row is in edit mode |
| UsersTableRuns.SaveSendsFullRecord | app/table.tsx:40 | along any offered run, new props included, a confirmed save sends a body holding every key whose `user_id` equals the id in the URL |
| UsersTableRuns.NoEffectRun | app/table.tsx:55-64 | deletes and declined or failed saves, in any number, leave the state as it was |
| AddUserForm.InitialFormData | app/AddUser/page.tsx:8-18 | nine keys: every text field `""`, `marketing_accept` `false`; nothing truthy |
| AddUserForm.NewValue | app/AddUser/page.tsx:23-24 | a flag exactly for a checkbox, carrying `checked`; otherwise the text `value` |
| AddUserForm.ChangesKeepShape | app/AddUser/page.tsx:22-25 | changes coming from the rendered inputs keep the keys of `initialFormData`, with text in the text fields and a flag in the consent field |
| AddUserForm.InitialFormNotSubmittable | app/AddUser/page.tsx:56-162 | the initial (and reset) form leaves every `required` input empty, so the browser does not submit it |
| AddUserForm.SubmitKeepsShape | app/AddUser/page.tsx:34-36 | a submit, whatever its outcome, keeps a well-shaped form well-shaped |
| AddUserForm.NewUserForm.constructor | app/AddUser/page.tsx:20 | the form starts as `initialFormData` |
| AddUserForm.NewUserForm.HandleChange | app/AddUser/page.tsx:22-26 | the named key takes the event's new value; every other key keeps its value |
| AddUserForm.NewUserForm.HandleSubmit | app/AddUser/page.tsx:28-43 | reached only with every `required` input filled; POSTs the form data unchanged to `/auth/register`; resets to exactly `initialFormData` on status 201, and keeps the data on any other status or a thrown request |

## Left out

- JSX markup, Tremor components, icons and CSS classes: presentation only. The rendered rows keep only each row's mode and the value each cell shows; a drop-down's cell is its selected option's value, not its label.
- The axios `makeRequest` calls and the `window.confirm` prompts are foreign I/O. They are outcome parameters. The return value of the error notice after a failed save is ignored, since the code ignores it.
- `console.log` / `console.error` logging, and `event.preventDefault()`.
- Async interleaving, such as a second click while a request is pending. The code has no guard against it. Each handler is atomic once its outcomes are known, so a handler sees the current state, never a stale render-time closure.
- Phone numbers: `phone_number` keeps its declared type, a number. At runtime it is whatever the database driver returns for the query in app/page.tsx. The draft holds typed text for it, as the code stores `e.target.value`.
- Numbers are integers. NaN and fractions do not occur among ids and phone numbers.
- Request paths: the paths `user/update/{id}` and `user/delete/{id}` are represented by the id alone. The decimal rendering of the id is not modelled.
- app/page.tsx: the search query runs in the database through a query-builder library. It has no local logic to verify.
- lib/planetscale.ts: connection configuration and a type declaration only.
- AddUserForm.NewUserForm.HandleSubmit: the browser's check that the `type="email"` input holds a well-formed address is not modelled; only the `required` inputs being non-empty is a precondition.
- A new `users` prop is modelled as keeping the state variables, the case in which React reuses the component; when it remounts instead, the state starts again from `null` and `{}`, which the initial state already covers.
