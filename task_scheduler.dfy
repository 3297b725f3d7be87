/** The plain registry of src/TaskScheduler.java: tasks keyed by a raw
    long timestamp, kept in a TreeMap, with a closed range query. */
module TaskScheduler {
  import opened TaskMap

  class TaskScheduler {
    /** Each occupied timestamp and the description of the one task booked there. */
    var taskMap: map<int, string>

    constructor ()
      ensures taskMap == map[]
    {
      taskMap := map[];
    }

    /** Inserts unless the timestamp is already taken: a conflict leaves the
        map as it was, a success adds exactly the new pair. */
    method AddTask(timestamp: int, task: string) returns (outcome: AddOutcome)
      modifies this
      ensures old(timestamp in taskMap) ==> outcome == Conflict && taskMap == old(taskMap)
      ensures old(timestamp !in taskMap) ==>
                outcome == Added && taskMap == old(taskMap)[timestamp := task] &&
                |taskMap| == |old(taskMap)| + 1
    {
      if timestamp in taskMap {
        outcome := Conflict;
      } else {
        taskMap := taskMap[timestamp := task];
        outcome := Added;
      }
    }

    /** Removes the task at a timestamp and yields its description, or reports
        that there is none and changes nothing. */
    method RemoveTask(timestamp: int) returns (outcome: RemoveOutcome)
      modifies this
      ensures old(timestamp in taskMap) ==>
                outcome == Removed(old(taskMap)[timestamp]) &&
                taskMap == old(taskMap) - {timestamp} &&
                |taskMap| == |old(taskMap)| - 1
      ensures old(timestamp !in taskMap) ==> outcome == NotFound && taskMap == old(taskMap)
    {
      if timestamp in taskMap {
        var removedTask := taskMap[timestamp];
        taskMap := taskMap - {timestamp};
        outcome := Removed(removedTask);
      } else {
        outcome := NotFound;
      }
    }

    /** The entry with the smallest timestamp (the first of the ascending
        listing), or None -- "No tasks available !" -- when the map is empty. */
    method GetNextTask() returns (next: Option<Entry>)
      ensures next == None <==> taskMap == map[]
      ensures next.Some? ==> Holds(taskMap, next.value) &&
                             forall k :: k in taskMap ==> next.value.when <= k
      ensures next.Some? ==> Listing(taskMap) != [] && next.value == Listing(taskMap)[0]
    {
      if |taskMap| != 0 {
        assert |taskMap.Keys| == |taskMap|;
        var k := Least(taskMap.Keys);
        next := Some(Entry(k, taskMap[k]));
        FirstIsLeast(taskMap);
      } else {
        next := None;
      }
    }

    /** The tasks whose timestamp lies in the closed range [start, end], in
        ascending order. */
    method GetTasksInRange(start: int, end: int) returns (tasks: seq<Entry>)
      requires start <= end
      ensures Ascending(tasks)
      ensures forall e :: e in tasks <==> Holds(taskMap, e) && start <= e.when <= end
    {
      var rangeTasks := SubMap(taskMap, start, true, end, true);
      tasks := EntrySet(rangeTasks);
      RangeEnumerates(taskMap, start, true, end, true);
    }

    /** Every task, each once, in strictly ascending timestamp order. */
    method DisplayAllTasks() returns (tasks: seq<Entry>)
      ensures Enumerates(tasks, taskMap)
      ensures |tasks| == |taskMap|
    {
      tasks := EntrySet(taskMap);
      ListingEnumerates(taskMap);
    }
  }

  /** Removing the task just added at a free timestamp gives back its
      description and restores the registry. */
  method AddThenRemove(scheduler: TaskScheduler, timestamp: int, task: string) returns (removed: RemoveOutcome)
    requires timestamp !in scheduler.taskMap
    modifies scheduler
    ensures removed == Removed(task)
    ensures scheduler.taskMap == old(scheduler.taskMap)
  {
    var added := scheduler.AddTask(timestamp, task);
    removed := scheduler.RemoveTask(timestamp);
  }

  /** A second insert at an occupied timestamp is rejected and the first task
      stays. */
  method SecondInsertConflicts(scheduler: TaskScheduler, timestamp: int, first: string, second: string)
      returns (outcome: AddOutcome)
    requires scheduler.taskMap == map[]
    modifies scheduler
    ensures outcome == Conflict
    ensures scheduler.taskMap == map[timestamp := first]
  {
    var added := scheduler.AddTask(timestamp, first);
    outcome := scheduler.AddTask(timestamp, second);
  }
}
