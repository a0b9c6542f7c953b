# BoBoTaskManager task store, in Dafny

This project models the data side of `TaskManager` in `task_manager.py`, a
desktop to-do application. The state is the insertion-ordered dict
`self.categories`, which maps a category name to its list of task records,
plus the name `self.current_category`. The model covers the handlers that
change that state:

- adding, toggling, editing, moving and deleting a task;
- clearing completed tasks;
- adding, renaming, deleting, selecting and reordering categories;
- merging an imported file;
- the backfill and fall-backs of `load_tasks`, and the encoding `save_tasks` writes.

It also models what the view derives from the state: the completed and
uncompleted sections, the "(completed/total)" counts and `get_task_index`.

Every handler is a pure function from a `Store` to a `Store`:

- a dialog's answer is a parameter: the typed text, whether the user
  confirmed, or `None` for a cancelled input dialog;
- the time `datetime.now()` would give is an opaque string parameter;
- the task file is a parameter: `None` when it is missing, otherwise its
  decoded top-level object.

Modules:

- `Strings`: Python's `str.strip()`, using the characters for which `str.isspace()` holds.
- `Lists`: `list.pop(i)` and `list.insert(i, x)`; an insert index past the end appends.
- `Tasks`: the task record, the completion toggle, the two sections, and `get_task_index`.
- `Categories`: the ordered dict as a sequence of entries with distinct names. It provides lookup, value update, key removal, the pop/insert reorder, `dict.update`, and the collection of all tasks.
- `TaskStore`: the store and its handlers. `Valid` says the names are distinct and `current` is one of them. `TasksConsistent` says a task has a completion date exactly when it is completed.
- `Persistence`: the raw records of `tasks.json`, the load-time backfill, loading and saving.
- `Findings`: two handlers modelled as written next to their evidently intended behaviour (see below).

Two places are modelled as written:

- A missing task file seeds the key "人" where every other seed uses "个人" (`Persistence.Load`).
- The test `self.current_category == self.current_category` in `edit_category` is always true. This does no harm, because that dialog only renames the current category (`TaskStore.EditCategoryRenamesCurrent`).

## Model

| member | source | states |
|---|---|---|
| `Strings.Strip` | task_manager.py:392 | the stripped text is a slice of the input with only white space cut from either end, starts and ends with a non-space, and is empty exactly when the input is all white space |
| `Strings.MiddleEmpty` | task_manager.py:392-393 | once white space is cut from both ends, nothing is left exactly when the text was all white space, which is when the handler ignores it |
| `Strings.StripIdempotent` | task_manager.py:392 | stripping a stripped text changes nothing |
| `Lists.RemoveAt` | task_manager.py:1688 | `pop(i)` shifts the later elements down by one and removes exactly one occurrence of the popped element |
| `Lists.InsertAt` | task_manager.py:1527 | `insert(i, x)` puts `x` at `i`, or at the end when `i` is past it, shifts the rest up, and popping it again gives back the list |
| `Lists.InsertRemove` | task_manager.py:1526-1527 | re-inserting a popped element where it was restores the list |
| `Tasks.Toggle` | task_manager.py:575-581 | completion flips; the record has a completion date, the given time, exactly when it is now completed; text and creation date are kept |
| `Tasks.ToggleTwice` | task_manager.py:575-581 | two toggles restore the completion flag; the date ends absent when the task started uncompleted and is the second time when it started completed |
| `Tasks.Section` | task_manager.py:411-413 | every task of a section has the given completion state, and a section is no longer than the list |
| `Tasks.SectionMembers` | task_manager.py:411-413 | a task is in a section exactly when it is in the list with that completion state |
| `Tasks.SectionAppend` | task_manager.py:411-413 | sections are taken piecewise, so they keep the list's order |
| `Tasks.Partition` | task_manager.py:411-413 | the two sections together hold exactly the list's tasks, so their lengths add up to its length |
| `Tasks.SectionIdempotent` | task_manager.py:1140-1143 | taking a section of a section changes nothing |
| `Tasks.Tally` | task_manager.py:425-427 | the completed count never exceeds the total, and falls short of it by the size of the uncompleted section |
| `Tasks.IndexOf` | task_manager.py:793 | `list.index` finds a position holding the record, and no earlier position holds it |
| `Tasks.TaskIndex` | task_manager.py:782-793 | `get_task_index` returns an in-range position whose record is the one shown in that row of the section, with the section's completion state |
| `Tasks.TaskIndexCountsSection` | task_manager.py:782-793 | when no two records are equal, exactly `k` tasks of the section come before the position returned for row `k` |
| `Tasks.SectionKeepsOrder` | task_manager.py:411-413 | two tasks of the same state appear in their section in list order |
| `Categories.Position` | task_manager.py:1283 | the `next(i for i, (cat, _) in enumerate(...))` search returns the first entry holding the name |
| `Categories.PositionOf` | task_manager.py:1283 | in a dict the entry holding a key is the one the search finds |
| `Categories.RemoveAtDistinct` | task_manager.py:1325 | `del d[k]` leaves a dict without that key and with every other key |
| `Categories.Move` | task_manager.py:1525-1528 | the pop-then-insert permutes the entries, puts the dragged entry at the clamped index and keeps the others in order |
| `Categories.MoveDistinct` | task_manager.py:1525-1528 | a reordered dict is a dict with the same keys |
| `Categories.MoveBack` | task_manager.py:1525-1528 | dragging the entry back from where it landed restores the order |
| `Categories.Upsert` | task_manager.py:1084 | assigning one key keeps a dict a dict, with that key added |
| `Categories.Merge` | task_manager.py:1084 | `dict.update` keeps a dict a dict, and its keys are exactly the old keys together with the imported ones |
| `Categories.MergeSpec` | task_manager.py:1084 | `dict.update` keeps existing keys in place with the imported value where one was given, and appends the new keys in import order |
| `Categories.AllTasksSetTasks` | task_manager.py:1689 | replacing one category's list replaces exactly its tasks among all tasks |
| `Categories.Transfer` | task_manager.py:1688-1689 | the pop from one list and the append to another change those two lists only, and the same list when source and target coincide |
| `Categories.TransferConserves` | task_manager.py:1688-1689 | a transfer neither creates nor loses a task |
| `Categories.TransferConsistent` | task_manager.py:1688-1689 | a transfer keeps every list obeying the completion-date rule |
| `Categories.RemoveConserves` | task_manager.py:1698 | popping a task takes exactly that task out of all tasks |
| `TaskStore.AddTask` | task_manager.py:391-404 | blank text changes nothing; otherwise one new uncompleted task without completion date, with the stripped text, is appended to the current category and nothing else changes |
| `TaskStore.ToggleTask` | task_manager.py:575-584 | only the toggled record changes, and it obeys the completion-date rule |
| `TaskStore.ToggleTaskTwice` | task_manager.py:575-581 | toggling an uncompleted task twice restores a consistent store |
| `TaskStore.EditTask` | task_manager.py:1658-1664 | a blank or unchanged text changes nothing; otherwise only that record's text changes |
| `TaskStore.MoveTask` | task_manager.py:1687-1693 | the record leaves the current list at its position and is appended to the target's; other categories are unchanged and all tasks are conserved |
| `TaskStore.DeleteTask` | task_manager.py:1695-1701 | without confirmation nothing changes; with it exactly that record leaves the current list |
| `TaskStore.AddThenDeleteTask` | task_manager.py:1695-1698 | deleting the task just added restores the store |
| `TaskStore.ClearCompleted` | task_manager.py:1135-1147 | every category keeps exactly its uncompleted tasks, in order, under the same keys |
| `TaskStore.ClearCompletedTwice` | task_manager.py:1140-1144 | clearing twice is clearing once |
| `TaskStore.ClearCompletedKeepsOrder` | task_manager.py:1140-1144 | two uncompleted tasks keep their relative order |
| `TaskStore.Sections` | task_manager.py:406-421 | the two panes partition the current category's tasks by completion state |
| `TaskStore.CategoryCounts` | task_manager.py:423-430 | one entry per category in dict order, with its name, completed count and total |
| `TaskStore.SelectCategory` | task_manager.py:369-389 | a known key becomes current; otherwise the first key does, or the defaults are seeded; the result is always a valid store |
| `TaskStore.AddCategory` | task_manager.py:490-508 | a cancelled, empty or existing name changes nothing; otherwise an empty category is appended |
| `TaskStore.RenameCategory` | task_manager.py:1277-1295 | a blank, unchanged or taken name changes nothing; otherwise the entry keeps its place and tasks under the new key, nothing else changes, and `current` follows the rename |
| `TaskStore.RenameKeys` | task_manager.py:1279-1287 | replacing a key by a fresh one keeps a dict a dict, drops the old key and keeps the others |
| `TaskStore.RenameBack` | task_manager.py:1277-1291 | renaming back restores the store |
| `TaskStore.EditCategory` | task_manager.py:534-552 | the current category is renamed under the same acceptance test, and the store stays valid |
| `TaskStore.EditCategoryRenamesCurrent` | task_manager.py:534-549 | the always-true test makes `edit_category` exactly a rename of the current category |
| `TaskStore.DeleteCategory` | task_manager.py:1319-1335 | with one category or fewer, or without confirmation, nothing changes; otherwise only that key goes, and the first remaining key becomes current if it was current |
| `TaskStore.AddThenDeleteCategory` | task_manager.py:1324-1325 | deleting a category just added restores the store |
| `TaskStore.Reorder` | task_manager.py:1520-1528 | a drop on the dragged entry's own index changes nothing; otherwise the entries are permuted with the dragged one at the clamped index and the store stays valid |
| `TaskStore.ReorderBack` | task_manager.py:1523-1528 | dragging back restores the store |
| `TaskStore.Import` | task_manager.py:1084 | the merge keeps the store valid and has the `dict.update` result |
| `Persistence.Backfill` | task_manager.py:450-456 | a missing creation date comes from the old `date` key or else the clock, a missing completion date follows the completion flag, and fields present are kept |
| `Persistence.BackfillEncode` | task_manager.py:441-456 | a record written in full is read back unchanged |
| `Persistence.BackfillClock` | task_manager.py:453-454 | the clock matters exactly for records with neither creation date nor old `date` key |
| `Persistence.Decode` | task_manager.py:448-457 | the loaded dict has the file's keys in order, each list backfilled record by record |
| `Persistence.Save` | task_manager.py:441-443 | the file has the dict's keys in order and every record written in full |
| `Persistence.Load` | task_manager.py:445-481 | the result is always a valid store: a missing file seeds four empty categories, an empty object the defaults, and otherwise the backfilled data, with the prior category current when it is a key and else the first key |
| `Persistence.Startup` | task_manager.py:272-283 | start-up loads with "工作" as the prior current category |
| `Persistence.LoadSave` | task_manager.py:441-481 | saving a valid store and loading it back gives the same store |
| `Persistence.LoadConsistent` | task_manager.py:450-456 | a loaded store obeys the completion-date rule exactly when the records that already had a completion date did |
| `Persistence.LoadSaveLoad` | task_manager.py:441-481 | saving what was loaded and loading again changes nothing |
| `Findings.MenuDeleteAsWritten` | task_manager.py:1588-1593 | the menu's delete, as written, removes the record at position `k` of the whole list |
| `Findings.MenuDeleteWrongRow` | task_manager.py:727 | on an uncompleted task followed by a completed one, deleting the completed section's only row removes the uncompleted task |
| `Findings.MenuDelete` | task_manager.py:1695-1698 | with the row turned into a list position, the record shown in the row is the one removed |
| `Findings.MenuDeleteRightRow` | task_manager.py:782-793 | on the same store the intended delete removes the completed task |
| `Findings.MenuMove` | task_manager.py:1687-1689 | with the row turned into a list position, the record shown in the row is appended to the target and all tasks are conserved |
| `Findings.MenuEdit` | task_manager.py:1658-1664 | with the row turned into a list position, the record shown in the row, and no other, gets the new text |
| `Findings.ReorderOvershoots` | task_manager.py:1523-1528 | as written, a drop below the dragged entry lands it right after the entry the placeholder preceded |
| `Findings.ReorderDropCounterexample` | task_manager.py:1485-1506 | dragging A before C in A, B, C gives B, C, A |
| `Findings.DropAt` | task_manager.py:1485-1528 | with the slot adjusted, the dragged entry lands right before the entry the placeholder preceded, or last, and the other entries keep their order; a drop in place changes nothing |
| `Findings.DropAtExample` | task_manager.py:1485-1528 | dragging A before C in A, B, C gives B, A, C |

## Left out

- Everything graphical: widgets, the custom menu, the theme, animations, window placement, the title bar and the category analysis window.
- The drag geometry. Which slot the placeholder sits at depends on mouse and widget coordinates, so the slot is a parameter.
- Dialogs and confirmations. Their answers are parameters.
- File I/O and JSON parsing errors. A missing file and a decoded object are parameters. An import whose top-level value is an array goes to `dict.update` as a sequence of key/value pairs: it is applied pair by pair and can stop part way with a `TypeError`, leaving a partial update that `save_tasks` does not write (task_manager.py:1084-1085). Only a file that fails to parse, or a value that is neither an object nor an array of pairs, leaves the store unchanged through the exception handler. None of these paths is modelled.
- `export_tasks`, `backup_data` and `restore_data`. They copy files, and `restore_data` replaces the dict wholesale with no backfill.
- JSON values of unexpected types, such as a non-boolean `completed` or a non-string date. Records are typed.
- Persistence.Load: one clock reading `now` serves every backfilled record. The handler reads the clock once per record, so readings could differ across a minute boundary.
- Persistence.Decode: the old `date` key is not carried into the store's records. The handler keeps it in the dict, so the next save writes it back.
- TaskStore.Import: imported records are merged without backfill, as the handler does, so `TasksConsistent` is not claimed for the result.
- TaskStore.EditCategory: its own contract states only the validity and the new current name. Its full effect is stated through `TaskStore.EditCategoryRenamesCurrent`.
- TaskStore.DeleteCategory: a confirmed delete of a name that is not a key would raise `KeyError`. The model requires the name to be a key, as the category menu only offers existing keys.
- TaskStore.MoveTask: the model also covers a target equal to the current category, which the move menu never offers (task_manager.py:1626).

## Findings

| source | as written | input that shows it | evidently intended | confidence | as-written member | corrected member |
|---|---|---|---|---|---|---|
| task_manager.py:727 | the task menu passes the row's position within its section to `edit_task`, `move_task` and `delete_task`, which index the whole category list | a category holding an uncompleted task then a completed one; "删除" on the completed section's only row deletes the uncompleted task | convert the row with `get_task_index`, as the toggle at line 651 does | high, not executed | `Findings.MenuDeleteAsWritten` | `Findings.MenuDelete` |
| task_manager.py:1526-1527 | the drop slot counts positions in the original order, but the entry is inserted at that slot after it has been popped | categories A, B, C; drag A to the placeholder before C (slot 2) and get B, C, A | insert at `slot - 1` when the slot lies below the dragged entry, giving B, A, C | high, not executed | `TaskStore.Reorder` | `Findings.DropAt` |
