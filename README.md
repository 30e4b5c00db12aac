# To-do list task store

This project models the task list of a single-window desktop to-do app,
`TodoApp` in `todo.py`. The list is an ordered sequence of tasks. Each task has
a text, a completed flag and a priority. Every button, click and dialog of the
window changes that sequence. The model covers these changes:

- add a task;
- toggle a task's completed flag by clicking its row;
- edit a task's text;
- set a task's priority;
- remove one task;
- clear all completed tasks;
- count tasks for the status bar;
- give a default priority to records read back from the data file.

It also models how a priority and a row are displayed.

Layout:

- `wrappers.dfy` (`Wrappers`): `Option`, used for a listbox selection and a dialog reply.
- `text.dfy` (`Text`): Python's `str.strip()` and what it guarantees.
- `tasks.dfy` (`Tasks`): the `Task` and parsed `Record` values, the
  well-formedness invariant, priority and row display, completed counts,
  the "Clear Done" filter, the status-bar summary and load normalisation.
- `operations.dfy` (`Operations`): one pure function per handler, from the old
  list and the user's input to the new list, with lemmas about counts and
  repeated use.
- `store.dfy` (`TodoStore`): class `TaskStore`, whose `tasks: seq<Task>` field
  is `TodoApp.tasks`. It has one method per handler, each proved to produce
  the list that a specification function describes: the `Operations`
  function of the same handler, `Tasks.WithoutCompleted` for "Clear Done"
  and `Tasks.Normalised` for loading. Also the load loop
  `FillDefaultPriorities`.

Widget inputs are method parameters:

- the row a click lands on is an `int`: `listbox.nearest` gives the row
  nearest to the click (the last row for a click below them all), or -1 on an
  empty list;
- the listbox selection is an `Option<nat>`;
- the edit dialog's reply is an `Option<string>`, where `None` means cancelled;
- the priority dialog's confirmed level is an `Option<Level>`;
- the delete confirmation is a `bool`;
- the outcome of reading the data file is a `StoredFile`.

A selection whose index is past the end of the list takes the same path as no
selection. That is the `IndexError` handler in the code.

The model follows the code:

- An out-of-range click does nothing. It raises no error and shows no message.
- The priority dialog's combobox is read-only, so a level picked in it is
  `High`, `Medium` or `Low`, and no priority is ever rejected. A task loaded
  with an unknown priority opens the dialog on that value, and OK without a
  pick writes it back unchanged (see `SetTaskPriority` under "Left out").
- Loading does not re-check text or priorities. Only a missing priority is
  filled in. The invariant `Tasks.AllWellFormed` therefore holds after loading
  only when every record satisfies it (`Tasks.NormalisedWellFormedIff`). Every
  other handler preserves the invariant.
- A task's priority is kept as a string, as in the data file, so that a
  loaded unknown priority (shown with no badge) can be represented.

## Model

| member | source | states |
|---|---|---|
| `Text.LeadingWhitespace` | todo.py:222 | the count is at most the length, every character before it is whitespace, and the character at it (if any) is not |
| `Text.TrailingWhitespace` | todo.py:222 | the count is at most the length, every character in the last that many is whitespace, and the one before them (if any) is not |
| `Text.Strip` | todo.py:222 | the stripped text is no longer than the input and neither starts nor ends with whitespace |
| `Text.StripSlice` | todo.py:258 | the stripped text is one contiguous slice of the input with only whitespace before and after it |
| `Text.StripUnique` | todo.py:222 | any slice of the input with no outer whitespace and only whitespace before and after it is exactly what stripping returns, so `Strip` is fully determined by its contract |
| `Text.StripEmptyIff` | todo.py:222-223 | stripping gives the empty string exactly when the input is empty or whitespace only |
| `Text.StripFixedIff` | todo.py:258 | stripping leaves a string unchanged exactly when it has no leading or trailing whitespace |
| `Text.StripIdempotent` | todo.py:258 | stripping twice equals stripping once |
| `Tasks.PriorityDisplay` | todo.py:66-74 | a priority gets a non-empty badge exactly when it is High, Medium or Low; that badge is the level's initial in parentheses; any other value gets no badge and the default text colour |
| `Tasks.LevelDisplaysDistinct` | todo.py:66-74 | two different levels differ in both badge and colour |
| `Tasks.Row` | todo.py:209-212 | a row starts with the checked box exactly for a completed task, followed by a space, the priority badge, a space and the task text |
| `Tasks.RowInjective` | todo.py:210-212 | two tasks with equal rows have the same completed flag, the same shown badge and the same text |
| `Tasks.CountCompleted` | todo.py:347 | the completed count never exceeds the number of tasks |
| `Tasks.CountCompletedConcat` | todo.py:347 | the completed count of two joined lists is the sum of their counts |
| `Tasks.CountCompletedExtremes` | todo.py:346-348 | the count is 0 exactly when no task is completed, and it equals the length exactly when every task is |
| `Tasks.CountCompletedUpdate` | todo.py:241-242 | replacing one task changes the count by the difference of the old and new completed flags only |
| `Tasks.WithoutCompleted` | todo.py:335 | the filtered list is shorter by the number of completed tasks, and every task in it comes from the input and is not completed |
| `Tasks.WithoutCompletedMembers` | todo.py:335 | a task is kept exactly when it is in the list and not completed |
| `Tasks.WithoutCompletedConcat` | todo.py:335 | filtering a joined list is joining the filtered parts, so kept tasks stay in their original relative order |
| `Tasks.WithoutCompletedIdempotent` | todo.py:333-343 | after clearing, nothing is completed, so a second clear removes 0 tasks and changes nothing |
| `Tasks.WithoutCompletedUnchangedIff` | todo.py:336-343 | clearing leaves the list unchanged exactly when no task is completed, which is the "Nothing to remove" case |
| `Tasks.Summarize` | todo.py:345-348 | total is the list length; done is at most total; done plus pending is total; pending is the length of the list after "Clear Done"; done is 0 exactly when nothing is completed; pending is 0 exactly when everything is |
| `Tasks.Normalised` | todo.py:363-365 | loading keeps length and order, and each loaded task is its record with a missing priority replaced by Medium |
| `Tasks.SavedAll` | todo.py:350-353 | the saved file holds one record per task, in order, with all three fields written |
| `Tasks.LoadAfterSave` | todo.py:350-365 | loading the records that saving writes gives back the same list |
| `Tasks.NormalisedWellFormedIff` | todo.py:358-365 | the loaded list satisfies the task invariant exactly when every record has non-empty trimmed text and a priority that is absent or a level name |
| `Operations.Added` | todo.py:221-230 | input that strips to nothing (by `Text.StripEmptyIff`, exactly the empty or whitespace-only input) leaves the list unchanged; otherwise exactly one task is appended with the stripped text, not completed and at Medium priority, and earlier tasks are unchanged |
| `Operations.AddedWellFormed` | todo.py:221-224 | adding to a list that satisfies the task invariant gives a list that satisfies it |
| `Operations.AddCounts` | todo.py:221-225 | adding never changes the completed count, so a successful add, one task longer by `Added`, is one more pending task |
| `Operations.Toggled` | todo.py:232-242 | an index outside the list changes nothing; otherwise only that task's completed flag flips, and done moves by exactly one in the matching direction; the invariant is preserved |
| `Operations.ToggleTwice` | todo.py:241-242 | toggling the same row twice restores the list |
| `Operations.Edited` | todo.py:249-270 | no selection, a cancelled dialog or a reply that strips to nothing change nothing; otherwise only the selected task's text changes, to the stripped reply |
| `Operations.EditedWellFormed` | todo.py:257-260 | editing a list that satisfies the task invariant gives a list that satisfies it |
| `Operations.EditCounts` | todo.py:249-260 | editing never changes the completed count; with `Edited` keeping the length, no status-bar count changes |
| `Operations.EditWithShownText` | todo.py:253-260 | confirming the dialog with the text it opened on leaves a well-formed list unchanged |
| `Operations.PrioritySet` | todo.py:272-300 | no selection or no new level changes nothing; otherwise only the selected task's priority changes, to the chosen level's name; texts, flags and the completed count are unchanged; the invariant is preserved |
| `Operations.Removed` | todo.py:321-331 | without a selection or without confirmation nothing changes; otherwise the length drops by one, earlier tasks stay, later tasks move up one place, the removed task is the only one gone (multiset), and done falls by one exactly when it was completed |
| `TodoStore.FillDefaultPriorities` | todo.py:363-365 | the loop keeps length and order, copies text and completed flag, keeps a present priority and sets a missing one to Medium |
| `TodoStore.TaskStore.constructor` | todo.py:60 | the store starts with an empty list, which satisfies the invariant |
| `TodoStore.TaskStore.AddTask` | todo.py:221-230 | the new list is `Added` of the old one; reports an empty-text failure exactly when the input strips to nothing; keeps the invariant |
| `TodoStore.TaskStore.ToggleTaskComplete` | todo.py:232-247 | the new list is `Toggled` of the old one; reports out-of-range exactly for an index outside the list; keeps the invariant |
| `TodoStore.TaskStore.EditTask` | todo.py:249-270 | the new list is `Edited` of the old one; reports no selection, cancelled, empty text or done, in that order of checks; keeps the invariant |
| `TodoStore.TaskStore.SetTaskPriority` | todo.py:272-319 | the new list is `PrioritySet` of the old one; reports no selection, cancelled or done; keeps the invariant |
| `TodoStore.TaskStore.RemoveTask` | todo.py:321-331 | the new list is `Removed` of the old one; reports no selection, declined or done; keeps the invariant |
| `TodoStore.TaskStore.RemoveCompletedTasks` | todo.py:333-343 | the new list is the old one without its completed tasks, and the reported count equals the old completed count; keeps the invariant |
| `TodoStore.TaskStore.LoadTasks` | todo.py:358-373 | a missing file leaves the list as it is; an unreadable file empties it; a parsed file replaces it with its normalised records |

## Left out

- Everything about widgets: window, fonts and their fallback, colours of frames and buttons, the listbox, the scrollbar and the layout. The foreground colour of completed rows is left out too. The priority colours are kept only because `PriorityDisplay` returns them.
- The status-bar and message-box texts, including their truncation to 20 or 30 characters. Each handler returns an `Outcome` naming the branch it took. Three branches show no message at all: `OutOfRange` (todo.py:235-236), `Declined` (todo.py:325) and `Cancelled` from `SetTaskPriority` when the dialog is closed.
- Dialog construction and centring. Which row `listbox.nearest` picks for a click. These are inputs to the methods.
- Reading and writing the data file, and JSON encoding and decoding. `StoredFile` stands for the result of reading the file. `SavedAll` stands for the records that saving writes. A failed save only shows a message, so it is not modelled.
- Parsed files whose shape a `Record` cannot represent: a top level that is not a list, a record without `text` or `completed`, or fields of other JSON types. Some of these load and fail only later. A top-level `{}` or `""` loads as zero tasks with the success message, and the next add fails at `append` (todo.py:224). Others are kept as they are, such as `"priority": null` (no badge; the key is present, todo.py:364) or `"completed": 1` (counted as done). Still others fail at once, outside the `except` clauses. A `Record` always has a string text, a boolean flag and an optional string priority.
- A decoding error that is neither an `IOError` nor a JSON error. The code does not catch it either.
- The closing handler, theme selection and the main loop. These are process lifecycle.
- `ToggleTaskComplete`: the `except Exception` branch is not modelled. None of the modelled steps can raise once the index is in range.
- `TodoStore.FillDefaultPriorities`: the code adds the key to each parsed record in place. The model builds a new sequence of tasks with the same contents and order.
- `TodoStore.TaskStore.SetTaskPriority`: pressing OK without picking a level writes back the value the dialog showed. That is the task's current priority, so the model treats it like closing the dialog (`None`). Neither changes the list. The outcome is then `Cancelled`, although the code shows the "set to" message for that OK.
- `Text.IsWhitespace` lists by code point the characters that Python's `str.isspace()` accepts. It does not consult the Unicode database.
