# Time-keyed task registry

A Dafny model of the two schedulers of the `taskscheduler` repository. Both keep
tasks in a `java.util.TreeMap` from an instant to a task description, with at
most one task per instant:

- `src/TaskScheduler.java` keys tasks by a raw `long` timestamp. It offers a
  conflict-checked insert, removal by key, the next (earliest) task, a range
  query over the closed range `[start, end]` and a full listing in ascending
  order.
- `src/EnhancedTaskScheduler.java` keys tasks by a `LocalDateTime`. It offers the
  same operations, but its range query is half-open: `[start, end)`. A
  successful insert also hands a one-shot job to a single-thread scheduled
  executor. When that job fires, it removes its key from the map. Recurring
  jobs can be armed at a fixed rate without touching the map. Saving writes the
  map only. Loading brings the map back with a fresh executor that has nothing
  armed.

Files:

- `task_map.dfy`, module `TaskMap`: what the `TreeMap` operations used by both
  classes mean. `Least` is `firstKey`. `Listing` is the ascending order in which
  `entrySet` is iterated, and `EntrySet` walks it entry by entry. `SubMap` is
  `subMap(from, fromInclusive, to, toInclusive)`. The lemmas prove that the
  listing holds every entry exactly once in strictly ascending key order, that
  it is the only sequence that does, and what iterating a sub-map yields.
- `task_scheduler.dfy`, module `TaskScheduler`: class `TaskScheduler`, whose
  field `taskMap: map<int, string>` is updated in place by `AddTask` and
  `RemoveTask`.
- `enhanced_task_scheduler.dfy`, module `EnhancedTaskScheduler`: class
  `EnhancedTaskScheduler`, with the same map and a field `timers: seq<Timer>`.
  `timers` holds the jobs the executor has been given and has not yet used up,
  each a `OneShot(time, task, delay)` or a `Recurring(task, delay, period)`.
  `Fire(i)` is the executor running the i-th of them. The ghost invariant
  `Valid()` says that every task in the map has a pending one-shot timer,
  unless it came from a loaded snapshot (the ghost set `stranded`). It also
  says that a stranded task is still in the map and has no timer.

Modelling choices:

- The current time `now` is a parameter, in whole seconds. Instants are
  integers: a `long` timestamp, or a `LocalDateTime` counted in seconds.
  Timestamps are only compared, never computed with. A difference of two
  `LocalDateTime` values in seconds always fits in a `long`. So no wrap-around
  needs modelling.
- Console messages are results. A conflict is `Conflict`. "No task found" is
  `NotFound`. "No tasks available" is `None`. The printed lines of the range
  query and of the listing are the returned sequence of entries.
- `ScheduledExecutorService.scheduleAtFixedRate` throws
  `IllegalArgumentException` for a period that is not positive. The exception
  leaves the executor without a new job. `AddRecurringTask` returns
  `IllegalPeriod` in that case and arms nothing.
- `TreeMap.subMap` throws when `start > end`, so both range queries require
  `start <= end`.
- `loadFromFile` (src/EnhancedTaskScheduler.java:124-131) only creates a new
  executor and re-arms nothing. So `Load` ends with no timer armed and every
  loaded key in `stranded`. A loaded task stays in the map until it is removed
  by hand, even when its time has passed.

## Model

| member | source | states |
|---|---|---|
| TaskMap.Least | src/TaskScheduler.java:36 | the key `firstEntry` picks is in the map and no larger than any other key |
| TaskMap.LeastExists | src/TaskScheduler.java:35-36 | every non-empty key set has a least element, so `firstEntry` of a non-empty map exists |
| TaskMap.ListingEnumerates | src/TaskScheduler.java:61-62 | iterating the entry set yields each entry of the map exactly once, nothing else, in strictly ascending key order, as many entries as the map has |
| TaskMap.ListingUnique | src/EnhancedTaskScheduler.java:85 | any sequence that lists exactly the map's entries in strictly ascending key order is the entry-set iteration order, so the listing is fully determined by the map |
| TaskMap.RangeEnumerates | src/TaskScheduler.java:44-51 | iterating `subMap(from, fromInclusive, to, toInclusive)` yields exactly the map's entries whose key lies within the bounds, each bound inclusive or not as asked, in ascending order |
| TaskMap.FirstIsLeast | src/TaskScheduler.java:36-37 | on a non-empty map, the first entry of the ascending listing is the entry with the least key |
| TaskMap.EntrySet | src/TaskScheduler.java:61-63 | the loop over the entry set visits the entries in the ascending listing order |
| TaskScheduler.TaskScheduler.constructor | src/TaskScheduler.java:9-11 | a new scheduler has no tasks |
| TaskScheduler.TaskScheduler.AddTask | src/TaskScheduler.java:14-21 | an occupied timestamp reports a conflict and leaves the map unchanged; a free one adds exactly that pair, every other entry stays as it was, and the map grows by one |
| TaskScheduler.TaskScheduler.RemoveTask | src/TaskScheduler.java:24-31 | a present key is deleted, its old description is returned and the map shrinks by one; an absent key reports not-found and leaves the map unchanged |
| TaskScheduler.TaskScheduler.GetNextTask | src/TaskScheduler.java:34-40 | None exactly when the map is empty ("No tasks available !"); otherwise an entry of the map whose key is the minimum, which is the first of the ascending listing |
| TaskScheduler.TaskScheduler.GetTasksInRange | src/TaskScheduler.java:43-53 | exactly the entries with `start <= k <= end`, both bounds inclusive, in strictly ascending order |
| TaskScheduler.TaskScheduler.DisplayAllTasks | src/TaskScheduler.java:56-65 | every entry exactly once and nothing else, in strictly ascending key order |
| TaskScheduler.AddThenRemove | src/TaskScheduler.java:14-31 | removing the task just added at a free timestamp returns its description and restores the map: removal undoes insertion |
| TaskScheduler.SecondInsertConflicts | src/TaskScheduler.java:15-16 | a second task at the same timestamp is rejected and the map still holds only the first one |
| EnhancedTaskScheduler.CalculateInitialDelay | src/EnhancedTaskScheduler.java:103-106 | the delay is never negative; it is `time - now` when the time is in the future and 0 otherwise (the least non-negative value at least `time - now`) |
| EnhancedTaskScheduler.EnhancedTaskScheduler.constructor | src/EnhancedTaskScheduler.java:21-24 | a new scheduler has an empty map and nothing armed |
| EnhancedTaskScheduler.EnhancedTaskScheduler.Load | src/EnhancedTaskScheduler.java:124-131 | after a load the map equals the saved map and the executor is fresh and empty: no loaded task is armed |
| EnhancedTaskScheduler.EnhancedTaskScheduler.AddTask | src/EnhancedTaskScheduler.java:27-35 | a conflict changes neither the map nor the timers; a success adds exactly the pair and arms exactly one one-shot timer for that key with the clamped delay; the invariant that every task is armed or stranded is kept |
| EnhancedTaskScheduler.EnhancedTaskScheduler.ScheduleTask | src/EnhancedTaskScheduler.java:92-100 | the `delay >= 0` guard always passes, so exactly one one-shot timer is appended for the key |
| EnhancedTaskScheduler.EnhancedTaskScheduler.AddRecurringTask | src/EnhancedTaskScheduler.java:38-44 | the map is untouched; a positive period arms one recurring timer with delay `max(start - now, 0)` and that period; a period that is not positive is rejected and arms nothing |
| EnhancedTaskScheduler.EnhancedTaskScheduler.RemoveTask | src/EnhancedTaskScheduler.java:47-54 | a present key is deleted and its description returned; an absent key reports not-found; the map changes only at that key, no timer is cancelled, and a removed loaded key stops being stranded |
| EnhancedTaskScheduler.EnhancedTaskScheduler.Fire | src/EnhancedTaskScheduler.java:95-98 | running a one-shot timer announces its task, uses the timer up and removes its key from the map, changing nothing when the key is already gone; a recurring timer announces its task and stays armed, and the map is untouched |
| EnhancedTaskScheduler.EnhancedTaskScheduler.GetNextTask | src/EnhancedTaskScheduler.java:57-64 | None exactly when the map is empty; otherwise the entry with the minimum key, the first of the ascending listing |
| EnhancedTaskScheduler.EnhancedTaskScheduler.GetTasksInRange | src/EnhancedTaskScheduler.java:67-77 | exactly the entries with `start <= k < end`, a half-open range, in strictly ascending order |
| EnhancedTaskScheduler.EnhancedTaskScheduler.DisplayAllTasks | src/EnhancedTaskScheduler.java:80-89 | every entry exactly once and nothing else, in strictly ascending key order |
| EnhancedTaskScheduler.AddThenFire | src/EnhancedTaskScheduler.java:92-99 | firing the timer a successful insert armed announces that task and restores both the map and the pending timers |
| EnhancedTaskScheduler.ReAddedKeyFiredByFirstTimer | src/EnhancedTaskScheduler.java:95-97 | a task removed by hand and re-added at the same time with another description is taken out of the map by the first, stale timer, because firing removes by key |
| EnhancedTaskScheduler.SaveAndLoad | src/EnhancedTaskScheduler.java:116-131 | saving and loading gives a new object, separate from the saved one, with the same map, no timer armed, every loaded key stranded and the invariant holding, so later operations can use it |

## Left out

- Console output and `formatDateTime` are not modelled. Every message becomes a
  returned value. `TaskScheduler.getNextTask` returns its formatted text; here
  it returns the entry itself.
- The executor's thread, waiting in real time, the order in which due jobs run,
  and fixed-rate drift are not modelled. `Fire` may run any pending timer, so
  it covers every order the executor could choose.
- The unsynchronised `taskMap.remove` on the timer thread is a concurrency
  issue outside this sequential model. Each `Fire` is one atomic step.
- Java serialization and file I/O in `saveToFile` and `loadFromFile` are not
  modelled, nor are their `IOException` and `ClassNotFoundException` paths.
  A snapshot is the map (`Snapshot`), and a load is the `Load` constructor.
- `LocalDateTime.now()` becomes the `now` parameter. The sub-second part that
  `Duration.getSeconds` truncates is not modelled, because instants are whole
  seconds.
- The executor is never shut down in the source, and recurring jobs are never
  cancelled, so neither is modelled.
- Both `main` demonstration methods are not modelled.
