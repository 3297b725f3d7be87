/** The registry of src/EnhancedTaskScheduler.java: tasks keyed by a
    date-time (counted here in whole seconds), a half-open range query, and
    a single-thread scheduled executor that fires each one-shot task at its
    time -- removing it from the map -- and recurring tasks at a fixed rate.
    The current time is a parameter; the executor is the list of work it
    has been handed and not yet run. */
module EnhancedTaskScheduler {
  import opened TaskMap

  /** Work armed on the executor, with its delay in seconds. */
  datatype Timer =
    | OneShot(time: int, task: string, delay: int)
    | Recurring(task: string, delay: int, period: int)

  /** scheduleAtFixedRate rejects a period that is not positive. */
  datatype RecurringOutcome = Scheduled | IllegalPeriod

  /** Seconds from now until the given time, never negative: a time already
      passed is due at once. */
  function CalculateInitialDelay(time: int, now: int): (delay: int)
    ensures delay >= 0
    ensures delay >= time - now
    ensures delay == 0 || delay == time - now
  {
    var seconds := time - now;
    if seconds > 0 then seconds else 0
  }

  class EnhancedTaskScheduler {
    /** Each booked date-time and its task's description; the only state a save keeps */
    var taskMap: map<int, string>
    /** transient: what the executor still has to run, in arming order */
    var timers: seq<Timer>
    /** keys that came from a loaded snapshot, are still in the map and have no timer */
    ghost var stranded: set<int>

    /** Some one-shot timer still pending will fire for this key. */
    ghost predicate Armed(k: int)
      reads this`timers
    {
      exists i :: 0 <= i < |timers| && timers[i].OneShot? && timers[i].time == k
    }

    /** Every task in the map will be fired by a pending timer, unless it
        came from a loaded snapshot; a loaded task that is still in the map
        has no timer at all. */
    ghost predicate Valid()
      reads this
    {
      && (forall k :: k in taskMap ==> k in stranded || Armed(k))
      && stranded <= taskMap.Keys
      && (forall k :: k in stranded ==> !Armed(k))
    }

    constructor ()
      ensures Valid()
      ensures taskMap == map[] && timers == []
    {
      taskMap := map[];
      timers := [];
      stranded := {};
    }

    /** loadFromFile: the map comes back as it was saved, and the fresh
        executor has nothing armed -- the loaded tasks are not re-armed. */
    constructor Load(snapshot: map<int, string>)
      ensures Valid()
      ensures taskMap == snapshot && timers == []
      ensures stranded == snapshot.Keys
      ensures forall k :: k in taskMap ==> !Armed(k)
    {
      taskMap := snapshot;
      timers := [];
      stranded := snapshot.Keys;
    }

    /** What saveToFile writes: the map and nothing of the executor. */
    function Snapshot(): map<int, string>
      reads this
    {
      taskMap
    }

    /** Inserts unless the time is taken. Only a successful insert arms a
        one-shot timer, and it always does, for exactly that key. */
    method AddTask(time: int, task: string, now: int) returns (outcome: AddOutcome)
      requires Valid()
      modifies this
      ensures Valid() && stranded == old(stranded)
      ensures old(time in taskMap) ==>
                outcome == Conflict && taskMap == old(taskMap) && timers == old(timers)
      ensures old(time !in taskMap) ==>
                outcome == Added && taskMap == old(taskMap)[time := task] &&
                timers == old(timers) + [OneShot(time, task, CalculateInitialDelay(time, now))]
      ensures outcome == Added ==> Armed(time)
    {
      if time in taskMap {
        outcome := Conflict;
      } else {
        taskMap := taskMap[time := task];
        ScheduleTask(time, task, now);
        outcome := Added;
        ArmedAfterAppend(old(timers), timers[|timers| - 1]);
        assert timers[|timers| - 1].OneShot? && timers[|timers| - 1].time == time;
      }
    }

    /** Arms a one-shot timer for the task. The delay is never negative, so
        the guard always passes and exactly one timer is armed. */
    method ScheduleTask(time: int, task: string, now: int)
      modifies this`timers
      ensures timers == old(timers) + [OneShot(time, task, CalculateInitialDelay(time, now))]
    {
      var delay := CalculateInitialDelay(time, now);
      if delay >= 0 {
        timers := timers + [OneShot(time, task, delay)];
      }
    }

    /** Arms a recurring timer at a fixed rate; the map is not touched. */
    method AddRecurringTask(startTime: int, task: string, periodInSeconds: int, now: int)
        returns (outcome: RecurringOutcome)
      requires Valid()
      modifies this`timers
      ensures Valid()
      ensures taskMap == old(taskMap)
      ensures periodInSeconds > 0 ==>
                outcome == Scheduled &&
                timers == old(timers) + [Recurring(task, CalculateInitialDelay(startTime, now), periodInSeconds)]
      ensures periodInSeconds <= 0 ==> outcome == IllegalPeriod && timers == old(timers)
    {
      if periodInSeconds > 0 {
        timers := timers + [Recurring(task, CalculateInitialDelay(startTime, now), periodInSeconds)];
        ArmedAfterAppend(old(timers), timers[|timers| - 1]);
        outcome := Scheduled;
      } else {
        outcome := IllegalPeriod;
      }
    }

    /** Removes the task at a time and yields its description, or reports
        that there is none. A pending timer for it is not cancelled. */
    method RemoveTask(time: int) returns (outcome: RemoveOutcome)
      requires Valid()
      modifies this`taskMap, this`stranded
      ensures Valid() && stranded == old(stranded) - {time}
      ensures timers == old(timers)
      ensures old(time in taskMap) ==>
                outcome == Removed(old(taskMap)[time]) &&
                taskMap == old(taskMap) - {time} &&
                |taskMap| == |old(taskMap)| - 1
      ensures old(time !in taskMap) ==> outcome == NotFound && taskMap == old(taskMap)
    {
      if time in taskMap {
        var removedTask := taskMap[time];
        taskMap := taskMap - {time};
        stranded := stranded - {time};
        outcome := Removed(removedTask);
      } else {
        outcome := NotFound;
      }
    }

    /** The executor runs the i-th pending timer and yields the description
        it announces. A one-shot timer is used up and removes its key from
        the map, which is a no-op when the key is already gone; a recurring
        timer stays armed and changes nothing. */
    method Fire(i: nat) returns (executed: string)
      requires Valid()
      requires i < |timers|
      modifies this
      ensures Valid() && stranded == old(stranded)
      ensures executed == old(timers[i]).task
      ensures old(timers[i]).OneShot? ==>
                taskMap == old(taskMap) - {old(timers[i]).time} &&
                timers == old(timers[..i] + timers[i + 1..])
      ensures old(timers[i]).OneShot? && old(timers[i].time !in taskMap) ==> taskMap == old(taskMap)
      ensures old(timers[i]).Recurring? ==> taskMap == old(taskMap) && timers == old(timers)
    {
      match timers[i]
      case OneShot(time, task, _) =>
        executed := task;
        ghost var before := timers;
        taskMap := taskMap - {time};
        timers := timers[..i] + timers[i + 1..];
        forall k | k in taskMap && k !in stranded
          ensures Armed(k)
        {
          var j :| 0 <= j < |before| && before[j].OneShot? && before[j].time == k;
          assert j != i;
          if j < i {
            assert timers[j] == before[j];
          } else {
            assert timers[j - 1] == before[j];
          }
        }
      case Recurring(task, _, _) =>
        executed := task;
    }

    /** The entry with the earliest time, or None when the map is empty. */
    method GetNextTask() returns (next: Option<Entry>)
      ensures next == None <==> taskMap == map[]
      ensures next.Some? ==> Holds(taskMap, next.value) &&
                             forall k :: k in taskMap ==> next.value.when <= k
      ensures next.Some? ==> Listing(taskMap) != [] && next.value == Listing(taskMap)[0]
    {
      if |taskMap| != 0 {
        assert |taskMap.Keys| == |taskMap|;
        var k := Least(taskMap.Keys);
        next := Some(Entry(k, taskMap[k]));
        FirstIsLeast(taskMap);
      } else {
        next := None;
      }
    }

    /** The tasks whose time lies in the half-open range [start, end), in
        ascending order. */
    method GetTasksInRange(start: int, end: int) returns (tasks: seq<Entry>)
      requires start <= end
      ensures Ascending(tasks)
      ensures forall e :: e in tasks <==> Holds(taskMap, e) && start <= e.when < end
    {
      var rangeTasks := SubMap(taskMap, start, true, end, false);
      tasks := EntrySet(rangeTasks);
      RangeEnumerates(taskMap, start, true, end, false);
    }

    /** Every task, each once, in strictly ascending time order. */
    method DisplayAllTasks() returns (tasks: seq<Entry>)
      ensures Enumerates(tasks, taskMap)
      ensures |tasks| == |taskMap|
    {
      tasks := EntrySet(taskMap);
      ListingEnumerates(taskMap);
    }
  }

  /** Appending a timer leaves every earlier timer where it was. */
  lemma ArmedAfterAppend(before: seq<Timer>, t: Timer)
    ensures forall i :: 0 <= i < |before| ==> (before + [t])[i] == before[i]
  {
  }

  /** Firing the timer that a successful insert armed takes the task out
      again: the map and the pending timers are as before the insert. */
  method AddThenFire(scheduler: EnhancedTaskScheduler, time: int, task: string, now: int)
      returns (executed: string)
    requires scheduler.Valid()
    requires time !in scheduler.taskMap
    modifies scheduler
    ensures scheduler.Valid()
    ensures executed == task
    ensures scheduler.taskMap == old(scheduler.taskMap)
    ensures scheduler.timers == old(scheduler.timers)
  {
    var added := scheduler.AddTask(time, task, now);
    executed := scheduler.Fire(|scheduler.timers| - 1);
    assert scheduler.timers == old(scheduler.timers);
  }

  /** A task removed by hand and added again at the same time with another
      description is taken out by the first timer, which still fires for
      the key, while the second timer then finds nothing to remove. */
  method ReAddedKeyFiredByFirstTimer(scheduler: EnhancedTaskScheduler, time: int, first: string, second: string, now: int)
      returns (executed: string)
    requires scheduler.Valid()
    requires scheduler.taskMap == map[] && scheduler.timers == []
    modifies scheduler
    ensures executed == first
    ensures scheduler.taskMap == map[]
    ensures scheduler.timers == [OneShot(time, second, CalculateInitialDelay(time, now))]
  {
    var added := scheduler.AddTask(time, first, now);
    var removed := scheduler.RemoveTask(time);
    added := scheduler.AddTask(time, second, now);
    assert scheduler.taskMap == map[time := second];
    executed := scheduler.Fire(0);
  }

  /** Saving and loading gives a new, separate scheduler that keeps the map,
      drops every armed timer and has each loaded task stranded. */
  method SaveAndLoad(scheduler: EnhancedTaskScheduler) returns (loaded: EnhancedTaskScheduler)
    ensures fresh(loaded) && loaded.Valid()
    ensures loaded.taskMap == scheduler.taskMap
    ensures loaded.timers == []
    ensures loaded.stranded == loaded.taskMap.Keys
  {
    loaded := new EnhancedTaskScheduler.Load(scheduler.Snapshot());
  }
}
