# To-do list: task table and list controller

A model of the logic of a single-user desktop to-do list (`todo_sqlite.py`): a
SQLite table `tasks(id INTEGER PRIMARY KEY AUTOINCREMENT, text, completed,
created_at)` and a window controller (`TodoApp`) that turns three user intents
into one statement against the table. The intents are adding the text of the
entry field, clicking a row's checkbox and clicking a row's Delete button. After
each statement the controller re-reads the whole table and recomputes the counts
`Total | Active | Completed`.

- `strip.dfy`, module `PyStrings`: Python's `str.strip()` with no argument, as the
  controller applies it to the entry text.
- `tasks.dfy`, module `TaskTable`: the table rows as a sequence kept in ascending
  id order. Each SQL statement is a function on that sequence: `Deleted` for
  `DELETE ... WHERE id = ?` and `Updated` for `UPDATE ... SET completed = ?
  WHERE id = ?`. The class `TaskStore` holds the rows and SQLite's
  `sqlite_sequence` value (the largest id AUTOINCREMENT has issued). Its methods
  are the four database functions of the program.
- `controller.dfy`, module `Controller`: the new-flag computation (`NewState`),
  the counts (`ComputeStats`), and the class `TodoApp`. `TodoApp` holds the entry
  text, the rows on display and the stats label. Its methods `Add`, `Toggle` and
  `Delete` issue one statement and then `Reload`. `OneTaskSession` runs one task
  through add, complete, delete and a second delete, and asserts the listing and
  the counts after each step.

The invariants kept by every operation are these:
- The display equals a fresh read of the table (`TodoApp.Valid`).
- The ids are strictly ascending and never reused. `TaskStore.Valid` keeps every
  issued id at most the sequence value. The history set `issued` only grows: the
  ensures of `TaskStore.Insert` and `TodoApp.Add` add the new id to it, and the
  other methods keep it.
- Every row the controller wrote has stripped, non-empty text and a 0/1 flag
  (`TodoApp.WellFormed`).
- The counts satisfy `total == active + completed` and `0 <= active <= total`.

## Model

| member | source | states |
|---|---|---|
| `PyStrings.TextStart` | todo_sqlite.py:132 | the text starts at the first character that is not white space: everything before it is white space |
| `PyStrings.TextEnd` | todo_sqlite.py:132 | the text ends after the last character that is not white space: everything after it is white space |
| `PyStrings.Strip` | todo_sqlite.py:132 | the stripped text is no longer than the input, and neither of its ends is white space |
| `PyStrings.StripSlice` | todo_sqlite.py:132 | whenever the input is white space, then a middle part with non-white ends, then white space, `strip` returns exactly that middle part |
| `PyStrings.StripEmptyIff` | todo_sqlite.py:132-134 | the stripped text is empty exactly when every character of the input is white space, so only all-white input is rejected |
| `PyStrings.StripIdempotent` | todo_sqlite.py:132 | stripping the stripped text changes nothing, so stored text is already in stripped form |
| `TaskTable.Deleted` | todo_sqlite.py:38 | after the DELETE no row carries the id, and the result is no longer than the input |
| `TaskTable.DeletedMembers` | todo_sqlite.py:38 | the rows kept are exactly the rows whose id differs from the deleted one |
| `TaskTable.DeletedAscending` | todo_sqlite.py:38 | deleting from a listing in ascending id order leaves it in ascending id order |
| `TaskTable.DeletedAbsent` | todo_sqlite.py:38 | deleting an id that no row carries leaves the table unchanged |
| `TaskTable.DeletedIdempotent` | todo_sqlite.py:38 | deleting the same id twice has the effect of deleting it once |
| `TaskTable.AscendingTailLacksHead` | todo_sqlite.py:17 | in an ascending listing no later row repeats the first row's id (the key is unique) |
| `TaskTable.DeletedHead` | todo_sqlite.py:38 | in an ascending listing, deleting the first row's id removes the first row and nothing else |
| `TaskTable.DeletedExactlyOne` | todo_sqlite.py:38 | deleting the id of row k removes exactly row k and keeps every other row in order |
| `TaskTable.Updated` | todo_sqlite.py:45 | the UPDATE keeps every row in its place with the same id, text and creation time; a row's flag becomes the new value when its id matches and stays as it was otherwise |
| `TaskTable.UpdatedAbsent` | todo_sqlite.py:45 | updating an id that no row carries leaves the table unchanged |
| `TaskTable.UpdatedUnchanged` | todo_sqlite.py:45 | writing the flag a row already has leaves the table unchanged |
| `TaskTable.UpdatedTwice` | todo_sqlite.py:45 | of two updates of the same id the second one wins |
| `TaskTable.UpdatedExactlyOne` | todo_sqlite.py:45 | updating the id of row k gives row k the new flag, and the rows before and after it stay as they were |
| `TaskTable.UpdatedAscending` | todo_sqlite.py:45 | an update keeps the listing in ascending id order |
| `TaskTable.CountCompleted` | todo_sqlite.py:147 | the completed count never exceeds the number of rows |
| `TaskTable.CountCompletedIsCardinality` | todo_sqlite.py:147 | the completed count equals the number of row positions whose flag is 1 |
| `TaskTable.CountCompletedConcat` | todo_sqlite.py:147 | the completed count of two listings put together is the sum of their counts |
| `TaskTable.CountCompletedSplit` | todo_sqlite.py:147 | the completed count is the count before row k, plus row k's contribution, plus the count after it |
| `TaskTable.TaskStore.constructor` | todo_sqlite.py:12-24 | creating the table in a new database file gives no rows, sequence 0 and no issued ids |
| `TaskTable.TaskStore.Insert` | todo_sqlite.py:26-33 | the row is appended with flag 0, the given text and time, and id one past the largest id ever issued. That id was never issued before. Once the 64-bit maximum id has been issued, the insert fails and nothing changes |
| `TaskTable.TaskStore.Delete` | todo_sqlite.py:35-40 | the rows become `Deleted` of the old rows, the invariant is kept, and the sequence and issued ids stay |
| `TaskTable.TaskStore.SetCompleted` | todo_sqlite.py:42-47 | the rows become `Updated` of the old rows, the invariant is kept, and the sequence and issued ids stay |
| `TaskTable.TaskStore.List` | todo_sqlite.py:49-55 | the listing holds every row, in strictly ascending id order |
| `Controller.NewState` | todo_sqlite.py:174 | the flag written back is 0 or 1, and it is 0 exactly when the flag the row was drawn with is 1 |
| `Controller.NewStateInvolution` | todo_sqlite.py:174 | applying the new-flag rule twice gives the original flag back exactly when that flag is 0 or 1 |
| `Controller.ComputeStats` | todo_sqlite.py:146-148 | total is the number of rows, total = active + completed, both counts lie between 0 and total, and completed is the number of rows whose flag is 1 |
| `Controller.UpdatedStoredForm` | todo_sqlite.py:173-175 | writing a 0/1 flag keeps every row with stripped, non-empty text and a 0/1 flag |
| `Controller.DeletedStoredForm` | todo_sqlite.py:178-179 | a delete keeps every row with stripped, non-empty text and a 0/1 flag |
| `Controller.StatsAfterInsert` | todo_sqlite.py:136-148 | a new row with flag 0 adds one to the total and to the active count, and leaves the completed count |
| `Controller.StatsAfterToggle` | todo_sqlite.py:173-176 | toggling row k moves it from completed to active when its flag was 1, and from active to completed otherwise; the total stays |
| `Controller.StatsAfterDelete` | todo_sqlite.py:178-180 | deleting row k takes one off the total, and one off the completed count if its flag was 1, otherwise off the active count |
| `Controller.ToggleTwiceRestores` | todo_sqlite.py:173-176 | toggling with the flag a row shows, then with the flag that produced, restores the table |
| `Controller.TodoApp.constructor` | todo_sqlite.py:125-126 | the window starts with an empty entry and a display equal to a fresh read of the existing table |
| `Controller.TodoApp.SetEntry` | todo_sqlite.py:88-90 | typing replaces the entry text and touches nothing else |
| `Controller.TodoApp.Reload` | todo_sqlite.py:140-152 | after a reload the display equals the table and the counts are recomputed from it |
| `Controller.TodoApp.Add` | todo_sqlite.py:131-138 | All-white entry text leaves the table, the sequence, the issued ids and the entry unchanged. Other text appends one row holding the stripped text, flag 0 and a never-issued id, adds that id to the issued ids, clears the entry and adds one to the total and active counts. A failed insert changes nothing. Stored rows stay well formed |
| `Controller.TodoApp.Toggle` | todo_sqlite.py:173-176 | the table becomes `Updated` with the flag `NewState(completed)`, the display is reloaded, the entry, the sequence and the issued ids stay, and stored rows stay well formed |
| `Controller.TodoApp.Delete` | todo_sqlite.py:178-180 | the table becomes `Deleted` for that id, the display is reloaded, the entry, the sequence and the issued ids stay, and stored rows stay well formed |

## Left out

- Window construction and styling (frames, entries, fonts, theme, geometry, the title and subtitle entries, footer links) in todo_sqlite.py:62-123: presentation only.
- The per-row widgets `load_tasks` destroys and rebuilds (todo_sqlite.py:141-142, 154-171): toolkit calls. The model keeps the rebuilt rows as `view`, which always equals the table.
- The text formatting of the stats label (todo_sqlite.py:150-152): the model keeps the three numbers, not the string.
- Opening, committing and closing a SQLite connection in each database function: plumbing. The table is held in memory, and every statement takes effect at once.
- Storage failures (a missing or unwritable file, a disk error) are not modelled. The one failure modelled is the AUTOINCREMENT insert failing once the largest 64-bit id has been issued (`TaskStore.Insert`).
- `CREATE TABLE IF NOT EXISTS` on an existing file (todo_sqlite.py:15-22) is not modelled as a statement. The `TodoApp` constructor accepts any table that satisfies the store invariant, as a file written by earlier runs does.
- The clock read `time.strftime` (todo_sqlite.py:29): the timestamp is the `createdAt` parameter of `Add` and `Insert`.
- `webbrowser.open` (todo_sqlite.py:117, 122) and `mainloop` (todo_sqlite.py:187): external effects.
- `MAX_TASKS` (todo_sqlite.py:7) is never used, so there is no cap on the number of tasks.
- `PyStrings.IsWhitespace` lists the characters for which Python's `str.isspace` holds, by code point. It is written out from Python's documented rules; Python's Unicode tables are not part of this model.
- The `completed` column is a 0/1 integer, as in the code, and not a boolean. `NewState` maps every value other than 1 to 1.
