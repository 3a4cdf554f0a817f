# Recurring-task rollover of the console controller

This project models the console controller of a command-line task manager. It covers two things:

- The rollover pass over recurring tasks, `checkRecurring`, which runs at the start of every command.
- The command-word dispatch that follows the pass in `onCommandReceived`.

The controller keeps a task list with two collections:

- a flat, ordered list of every task;
- a registry of the active recurring instances, each keyed by itself.

The pass compares every instance against one clock reading (line 51) and takes a snapshot of the registry. Each instance that is due or overdue is regenerated:

- The new instance keeps the description, has the initials "R", gets a new due date and has that date formatted as its due text.
- The old instance leaves the registry.
- Every list entry with initials "R" that a search for the description finds is deleted from the list.
- The new instance is registered and appended to the list.

Instances not yet due are left alone. The whole pass happens before the command word is read, so a line with an unknown word is rejected after the collections have already changed.

Files:

- `tasks.dfy`: tasks, the two collections as one value, and the list operations the pass uses, as functions over sequences: description search, removal of stale recurring copies, and removal of the first equal element.
- `task_list.dfy`: the task list as a class whose methods update its two fields.
- `rollover.dfy`: the effect of the pass on values:
  - the date an instance is rolled to;
  - the catch-up loop's iteration as written;
  - reconciliation of the two collections;
  - a whole pass over a snapshot;
  - the agreement between the registry and the list that a pass keeps.
- `commands.dfy`: reading the first token of a line as `Scanner.next()` does, and choosing the command branch.
- `console_input_controller.dfy`: the controller class with its rollover loop, the regeneration of one instance, the deletion loop over search hits, the catch-up loops, and the command entry point.
- `wrappers.dfy`: the Option and Result types.

Time is an integer count of milliseconds. A week is `7 * 24 * 60 * 60 * 1000` of them. The clock reading and the date formatter come from outside: the reading is a parameter `now` of the pass, and the formatter is a function the controller is built with.

Two things the code does that its variable names do not suggest:

- The code chooses the branch by the raw millisecond difference `diff`. It does not use whole days: `diffDays` is computed and never used (`Rollover.WholeDaysDoNotDecide`).
- The catch-up loop never steps past the first week, so a task overdue by more than a week hangs the pass instead of catching up. This is recorded under Findings.

## Model

| member | source | states |
|---|---|---|
| Controller.ConsoleInputController.CheckRecurring | src/main/java/controllers/ConsoleInputController.java:49-98 | The snapshot lists every active instance exactly once. The new state is the pass over that snapshot, in its order, against one clock reading. |
| Controller.ConsoleInputController.Regenerate | src/main/java/controllers/ConsoleInputController.java:60-73 | The four calls, in source order, leave the state that Reconcile describes for the rebuilt instance. |
| Controller.ConsoleInputController.DeleteRecurringHits | src/main/java/controllers/ConsoleInputController.java:65-71 | The loop over the search hits leaves the list without exactly the stale copies, with the rest in order. The registry is untouched. |
| Controller.CatchUpAsWritten | src/main/java/controllers/ConsoleInputController.java:75-82 | When the loop as written ends (overdue by at most a week), it yields start plus one week, which is not before now. |
| Controller.CatchUp | src/main/java/controllers/ConsoleInputController.java:75-82 | The loop corrected to step a week at a time yields NextDueDate for every overdue instance. |
| Controller.ConsoleInputController.OnCommandReceived | src/main/java/controllers/ConsoleInputController.java:105-110 | The rollover pass takes effect first, over a snapshot listing every active instance exactly once. The result is then the dispatch of the line, error or not. |
| Controller.ConsoleInputController.constructor | src/main/java/controllers/ConsoleInputController.java:42-47 | A fresh, empty task list. |
| Rollover.RolledDate | src/main/java/controllers/ConsoleInputController.java:54-82 | An instance is rolled exactly when now is not before its date. The new date is after the old one, not before now and at most a week after now. When the instance is overdue by at most a week, the new date is the old date plus one week. |
| Rollover.NextDueDate | src/main/java/controllers/ConsoleInputController.java:76-82 | The first weekly date that is not before now: not before now, less than a week after it, and after the start. |
| Rollover.NextDueDateOnSchedule | src/main/java/controllers/ConsoleInputController.java:76-82 | That date is a whole number of weeks after the start. |
| Rollover.WholeDaysDoNotDecide | src/main/java/controllers/ConsoleInputController.java:54-56 | One millisecond either side of the due instant, diffDays is 0. Yet one side is rolled and the other is not. |
| Rollover.CatchUpDiverges | src/main/java/controllers/ConsoleInputController.java:76-82 | Overdue by more than a week, the loop as written still has a positive diff after any number of passes. |
| Rollover.CatchUpHaltsIff | src/main/java/controllers/ConsoleInputController.java:76-82 | The loop as written exits after some number of passes exactly when the instance is overdue by at most a week. It then exits after one pass with start plus one week. |
| Rollover.TwentyDaysOverdue | src/main/java/controllers/ConsoleInputController.java:76-82 | Twenty days overdue: the loop as written never exits, while the stepping loop yields day 21. |
| Rollover.Reconcile | src/main/java/controllers/ConsoleInputController.java:64-73 | The list loses exactly its stale copies and ends with the new instance. The registry loses the old key and maps the new instance to itself, and no other entry changes. |
| Rollover.RollOneRegenerates | src/main/java/controllers/ConsoleInputController.java:56-73 | The new instance has the old description, initials "R", the rolled date on the old weekly schedule, and the formatted date as due text. It is last in the list, listed once, and registered under itself. The old instance is unregistered. No other stale entry remains. |
| Rollover.FuturePassIsIdentity | src/main/java/controllers/ConsoleInputController.java:53-56 | A pass in which no instance is due yet changes nothing. |
| Rollover.PassKeepsOneOffTasks | src/main/java/controllers/ConsoleInputController.java:65-71 | Tasks whose initials are not "R" keep their number of occurrences in the list through a whole pass. |
| Rollover.RollOnePreservesConsistency | src/main/java/controllers/ConsoleInputController.java:64-73 | Regenerating one instance keeps the registry and the list in agreement when no active description occurs inside another. Every other active instance stays active. |
| Rollover.PassPreservesConsistency | src/main/java/controllers/ConsoleInputController.java:52-97 | A whole pass over a duplicate-free snapshot of the registry keeps that agreement. Instances outside the snapshot stay active. The agreement is an assumption on the state before the pass; see "## Left out". |
| Rollover.SubstringCollisionBreaksConsistency | src/main/java/controllers/ConsoleInputController.java:65-71 | Without the substring condition the agreement can break: rolling "gym" also deletes the list entry of the active "gym class". |
| Tasks.ContainsAt | src/main/java/controllers/ConsoleInputController.java:65-66 | The description match is substring occurrence at some position. |
| Tasks.SearchMembership | src/main/java/controllers/ConsoleInputController.java:65-66 | A task is a search hit exactly when it is listed and its description contains the fragment. |
| Tasks.SearchAppend | src/main/java/controllers/ConsoleInputController.java:65-66 | Search keeps list order: it acts on each part of a list separately. |
| Tasks.WithoutStaleMembership | src/main/java/controllers/ConsoleInputController.java:67-71 | An entry survives deletion exactly when it was listed and is not a stale copy. |
| Tasks.CountWithoutStale | src/main/java/controllers/ConsoleInputController.java:67-71 | Every occurrence of a stale task goes, and every other task keeps its count. |
| Tasks.RemoveFirstAfter | src/main/java/controllers/ConsoleInputController.java:69 | Removing an element deletes its first occurrence only. |
| Tasks.DeleteHitsOfPrefix | src/main/java/controllers/ConsoleInputController.java:65-71 | Deleting, in order, the "R" hits among the first n entries removes exactly the stale entries among them and keeps the rest of the list. |
| Tasks.DeleteAllHits | src/main/java/controllers/ConsoleInputController.java:65-71 | The deletion loop over all search hits removes exactly the stale copies. |
| TaskLists.TaskList.GetAllRecurringTasks | src/main/java/controllers/ConsoleInputController.java:52 | The snapshot holds every active instance, each once. |
| TaskLists.TaskList.DeleteFromRecurring | src/main/java/controllers/ConsoleInputController.java:64 | The registry loses the key. The list is unchanged. |
| TaskLists.TaskList.GetSearchedTasks | src/main/java/controllers/ConsoleInputController.java:65-66 | The hits are the listed tasks whose description contains the fragment, in list order. |
| TaskLists.TaskList.DeleteFromList | src/main/java/controllers/ConsoleInputController.java:69 | The list loses the first equal entry. The registry is unchanged. |
| TaskLists.TaskList.AddToRecurringList | src/main/java/controllers/ConsoleInputController.java:72 | The registry maps the key to the instance. The list is unchanged. |
| TaskLists.TaskList.AddToList | src/main/java/controllers/ConsoleInputController.java:73 | The task is appended. The registry is unchanged. |
| Commands.NextToken | src/main/java/controllers/ConsoleInputController.java:107-108 | There is no token exactly when the line is all whitespace. A token is non-empty and holds no whitespace. |
| Commands.NextTokenOfLine | src/main/java/controllers/ConsoleInputController.java:107-108 | Leading whitespace, a word and a delimited rest yield that word. |
| Commands.Dispatch | src/main/java/controllers/ConsoleInputController.java:110-187 | Success only on the line's first token, and only when it is a command word. The missing-token error occurs exactly on blank lines. |
| Commands.DispatchOfLine | src/main/java/controllers/ConsoleInputController.java:186-187 | A known word selects its branch. Any other first word is rejected with the whole input. |

## Left out

- Saving and reading data files, the view's messages and the work of each command branch are outside the model. Dispatch returns only the selected command word.
- Time zones and daylight saving: `plusDays(7)` is taken as exactly `7 * 86400000` milliseconds.
- Integer overflow of Java's `long` milliseconds is not modelled; integers are unbounded.
- `SimpleDateFormat("d MMMMM yyyy")` is an opaque function from date to text.
- The clock is the parameter `now`: every instance is compared against the reading of line 51. The second reading, `new Date()` at line 75 for each overdue instance, is overwritten by the catch-up loop before it is used, so the model stands in `now` for it and it has no effect on any result.
- TaskList is not part of this model; its behaviour is assumed from the calls:
  - search is a description-contains filter, with the `"search "` command prefix taken as stripped;
  - removal deletes the first equal element;
  - registering does not touch the list;
  - the registry snapshot comes in an unspecified order.
- Tasks are values: two instances with equal fields are one entry in both the registry and the list's equality test. The source keys the registry by the Recurring object and compares list entries with `equals`, which distinguishes separately created instances unless Recurring overrides it. Such twins are rolled once in the model but may be rolled twice by the code.
- The `recurring` command (line 167) registers a new instance without appending it to the list, under the assumption that registering does not touch the list. Until that instance's first rollover the state does not satisfy `Consistent`, whose list part (`ListedOnce`) requires every active instance to be listed once. The consistency lemmas apply only to states where the agreement already holds.
- ProjectInputController, NullMember and the repository interface are not part of this model.
- Commands.IsWhitespace: only the ASCII-range characters that `Character.isWhitespace` accepts are delimiters; the Unicode space separators are left out.
- Controller.CatchUpAsWritten: requires the instance to be overdue by at most a week, because the loop as written never ends otherwise. CatchUpDiverges and CatchUpHaltsIff state that case.
- Controller.ConsoleInputController.CheckRecurring: uses the corrected catch-up loop, so instances overdue by more than a week catch up instead of hanging the pass. Where the code as written ends, the two agree (`Rollover.RolledDate`).

## Findings

| source | as written | input that shows it | evidently intended | confidence | as-written member | corrected member |
|---|---|---|---|---|---|---|
| src/main/java/controllers/ConsoleInputController.java:76-82 | Each pass of the catch-up loop recomputes the candidate from the instance's unchanged start date, so `diff` never changes after the first pass. | An instance due 20 days before now: `diff` stays at 13 days and the loop never exits. | Step one week on from the previous candidate until reaching now, giving the date 21 days after the start. | high; not executed | Rollover.CatchUpDiverges | Controller.CatchUp |
