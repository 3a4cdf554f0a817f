/**
 * The task list object the controller owns: the flat, ordered list of all
 * tasks and the registry of active recurring instances, each instance keyed
 * by itself. Only the operations the rollover pass calls are modelled.
 */
module TaskLists {
  import opened Tasks

  class TaskList {
    var tasks: seq<Task>
    var registry: map<Task, Task>

    /** Both collections, as one value. */
    function State(): TaskState
      reads this
    {
      TaskState(tasks, registry)
    }

    constructor ()
      ensures tasks == [] && registry == map[]
    {
      tasks := [];
      registry := map[];
    }

    /** getAllRecurringTasks: a snapshot of the active instances, each once, in no fixed order. */
    method GetAllRecurringTasks() returns (snapshot: seq<Task>)
      ensures forall t :: t in snapshot <==> t in registry.Values
      ensures forall i, j :: 0 <= i < j < |snapshot| ==> snapshot[i] != snapshot[j]
    {
      snapshot := [];
      var rest := registry.Values;
      while rest != {}
        invariant rest <= registry.Values
        invariant forall t :: t in snapshot <==> t in registry.Values && t !in rest
        invariant forall i, j :: 0 <= i < j < |snapshot| ==> snapshot[i] != snapshot[j]
        decreases rest
      {
        var t :| t in rest;
        snapshot := snapshot + [t];
        rest := rest - {t};
      }
    }

    /** deleteFromRecurring: drops the entry keyed by `t`; no effect when there is none. */
    method DeleteFromRecurring(t: Task)
      modifies this
      ensures registry == old(registry) - {t}
      ensures tasks == old(tasks)
    {
      registry := registry - {t};
    }

    /** getSearchedTasks: the tasks whose description contains `fragment`, in list order. */
    method GetSearchedTasks(fragment: string) returns (hits: seq<Task>)
      ensures hits == Search(tasks, fragment)
    {
      hits := Search(tasks, fragment);
    }

    /** deleteFromList: removes the first list entry equal to `t`. */
    method DeleteFromList(t: Task)
      modifies this
      ensures tasks == RemoveFirst(old(tasks), t)
      ensures registry == old(registry)
    {
      tasks := RemoveFirst(tasks, t);
    }

    /** addToRecurringList: inserts or overwrites the entry for `key`. */
    method AddToRecurringList(key: Task, instance: Task)
      modifies this
      ensures registry == old(registry)[key := instance]
      ensures tasks == old(tasks)
    {
      registry := registry[key := instance];
    }

    /** addToList: appends to the list. */
    method AddToList(t: Task)
      modifies this
      ensures tasks == old(tasks) + [t]
      ensures registry == old(registry)
    {
      tasks := tasks + [t];
    }
  }
}
