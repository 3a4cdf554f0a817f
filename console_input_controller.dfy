/**
 * The console input controller: the rollover pass over the recurring tasks,
 * which runs first on every command, and the command-word dispatch after it.
 * The clock reading and the date formatter are supplied from outside.
 */
module Controller {
  import opened Wrappers
  import opened Tasks
  import opened TaskLists
  import opened Rollover
  import opened Commands

  /**
   * The catch-up loop of an overdue instance as written. Every pass recomputes
   * the candidate from the instance's unchanged start date, so the loop ends
   * only when that single step of a week reaches `now`; CatchUpDiverges shows
   * that it runs forever otherwise, hence the second precondition.
   */
  method CatchUpAsWritten(now: int, start: int) returns (newDate: int)
    requires now - start > 0
    requires now - start <= WEEK_MILLIS
    ensures newDate == start + WEEK_MILLIS
    ensures newDate >= now
  {
    var diff := now - start;
    newDate := now;  // stands for the second clock reading before the loop, which every pass overwrites
    while diff > 0
      invariant diff == now - start || (diff == now - (start + WEEK_MILLIS) && newDate == start + WEEK_MILLIS)
      decreases diff
    {
      var oldDate := start;
      newDate := oldDate + WEEK_MILLIS;
      diff := now - newDate;
    }
  }

  /**
   * The catch-up loop as evidently intended: each pass steps one week on from
   * the previous candidate, so the loop ends at the first date of the
   * instance's weekly schedule that is not before `now`.
   */
  method CatchUp(now: int, start: int) returns (newDate: int)
    requires now - start > 0
    ensures newDate == NextDueDate(now, start)
  {
    var diff := now - start;
    var oldDate := start;
    newDate := now;  // stands for the second clock reading before the loop, which every pass overwrites
    while diff > 0
      invariant diff == now - oldDate
      invariant diff > 0 ==> NextDueDate(now, oldDate) == NextDueDate(now, start)
      invariant diff <= 0 ==> newDate == NextDueDate(now, start)
      decreases diff
    {
      newDate := oldDate + WEEK_MILLIS;
      diff := now - newDate;
      oldDate := newDate;
    }
  }

  class ConsoleInputController {
    const taskList: TaskList
    /** The "d MMMMM yyyy" date formatter, a collaborator outside the model. */
    const format: int -> string

    constructor (format: int -> string)
      ensures this.format == format && fresh(taskList)
      ensures taskList.tasks == [] && taskList.registry == map[]
    {
      this.format := format;
      taskList := new TaskList();
    }

    /**
     * Replaces `stale` by a new instance dated `newDate`: removes it from the
     * registry, deletes the recurring hits of a search for its description,
     * then registers the new instance and appends it to the list.
     */
    method Regenerate(stale: Task, newDate: int)
      modifies taskList
      ensures taskList.State() == Reconcile(old(taskList.State()), stale, Regenerated(stale, newDate, format))
    {
      var description := stale.description;
      var renewed := Task(description, RECURRING_INITIALS, format(newDate), newDate);
      taskList.DeleteFromRecurring(stale);
      DeleteRecurringHits(description);
      taskList.AddToRecurringList(renewed, renewed);
      taskList.AddToList(renewed);
    }

    /**
     * The loop over the search hits for `description`: each hit whose
     * initials are "R" is deleted from the list, the others stay.
     */
    method DeleteRecurringHits(description: string)
      modifies taskList
      ensures taskList.tasks == WithoutStale(old(taskList.tasks), description)
      ensures taskList.registry == old(taskList.registry)
    {
      var searchedTasks := taskList.GetSearchedTasks(description);
      for j := 0 to |searchedTasks|
        invariant taskList.tasks == DeleteHits(old(taskList.tasks), searchedTasks[..j])
        invariant taskList.registry == old(taskList.registry)
      {
        var searchedTask := searchedTasks[j];
        if searchedTask.initials == RECURRING_INITIALS {
          taskList.DeleteFromList(searchedTask);
        }
        assert searchedTasks[..j + 1][..j] == searchedTasks[..j];
      }
      assert searchedTasks[..|searchedTasks|] == searchedTasks;
      DeleteAllHits(old(taskList.tasks), description);
    }

    /**
     * checkRecurring: reads the clock once (`now`), takes a snapshot of the
     * active instances and rolls each over in turn against that same `now`.
     */
    method CheckRecurring(now: int) returns (ghost snapshot: seq<Task>)
      modifies taskList
      ensures forall t :: t in snapshot <==> t in old(taskList.registry).Values
      ensures forall i, j :: 0 <= i < j < |snapshot| ==> snapshot[i] != snapshot[j]
      ensures taskList.State() == RollAll(old(taskList.State()), snapshot, now, format)
    {
      var allRecurringTasks := taskList.GetAllRecurringTasks();
      snapshot := allRecurringTasks;
      for i := 0 to |allRecurringTasks|
        invariant taskList.State() == RollAll(old(taskList.State()), allRecurringTasks[..i], now, format)
      {
        var recurringTask := allRecurringTasks[i];
        ghost var before := taskList.State();
        var diff := now - recurringTask.date;
        var diffDays := TruncDiv(diff, DAY_MILLIS);  // computed by the source, never used
        if diff == 0 {
          var newDate := now + WEEK_MILLIS;
          Regenerate(recurringTask, newDate);
          assert taskList.State() == RollOne(before, recurringTask, now, format) by {
            assert newDate == recurringTask.date + WEEK_MILLIS;
          }
        } else if diff > 0 {
          var newDate := CatchUp(now, recurringTask.date);
          Regenerate(recurringTask, newDate);
          assert taskList.State() == RollOne(before, recurringTask, now, format);
        } else {
          assert taskList.State() == RollOne(before, recurringTask, now, format);
        }
        RollAllStep(old(taskList.State()), allRecurringTasks, i, now, format);
      }
      assert allRecurringTasks[..|allRecurringTasks|] == allRecurringTasks;
    }

    /**
     * onCommandReceived: the rollover pass runs before the command word is
     * read, so its changes stand even when the word is rejected. Returns the
     * branch the word selects (whose work is outside this model) or the error.
     */
    method OnCommandReceived(input: string, now: int) returns (r: Result<string, CommandError>, ghost snapshot: seq<Task>)
      modifies taskList
      ensures forall t :: t in snapshot <==> t in old(taskList.registry).Values
      ensures forall i, j :: 0 <= i < j < |snapshot| ==> snapshot[i] != snapshot[j]
      ensures taskList.State() == RollAll(old(taskList.State()), snapshot, now, format)
      ensures r == Dispatch(input)
    {
      snapshot := CheckRecurring(now);
      r := Dispatch(input);
    }
  }
}
