# Task scheduler of the XMPP stream layer

A model of the task scheduler in `sleekxmpp/xmlstream/scheduler.py`. The
scheduler runs named callbacks once, or over and over, after a given number
of seconds.

- **Tasks.** A `Task` (`tasks.dfy`) holds a name, an interval, a callback
  with its arguments, a repeat flag and an optional event queue (`qpointer`).
  It also holds `next`, the absolute time at which it is next due.
  - Firing a task with a queue puts one `('schedule', callback, args)`
    directive on that queue.
  - Firing a task without a queue invokes the callback directly. The
    invocation is recorded, in order, in a ghost call log (`CallLog`) that
    the scheduler owns.
  - Either way the task is recorded in the log's firing record (`fired`),
    and the timer restarts.
- **Scheduler.** A `Scheduler` (`scheduler.dfy`) keeps three things:
  - `addq`: the tasks that have been added but not yet merged;
  - `schedule`: the active list, kept sorted by due time;
  - `running`: the running flag.

  A ghost list `retired` records the tasks that fired without repeating and
  so left the active list. It lets the loop's contract say where every task
  went.
- **Public operations.** `add` queues a task unless an active task has the
  same name. `remove` deletes the last active task of a given name. `quit`
  clears the flag.
- **One pass of the processing loop.**
  1. Compute the wait until the first active task is due, and turn it into a
     poll of `addq`: non-blocking, or blocking for at most 3 seconds.
  2. If a queued task is there, merge it into the active list and sort the
     list again.
  3. Otherwise fire the longest prefix of due tasks. Drop the fired tasks
     that do not repeat, and sort again if anything fired.
- **List helpers.** Sortedness, the due prefix, the last task of a name,
  `list.index`/`list.pop`, and the sort live in `task_lists.dfy`.

Two invariants run through the model:

- `Scheduler.Valid`: no task object is queued or active twice, and the
  active list is sorted by `next`. `Add`, `Remove`, `Merge`, `FireDue`,
  `ProcessOnce` and `Process` all preserve it.
- `Conserved`: across a pass or a whole run of the loop, the tasks that were
  queued or active are still queued or active, or have left through
  `retired`. Each task that left does not repeat and is in the new part of the
  firing record. No task appears from nowhere.

Names are not kept unique. `add` checks only the active list, so a name
still waiting in `addq` can be added again. The model keeps this behaviour
and does not assume it away.

Environment and time are handled as follows:

- **Clock.** Time is a `real` passed in. A pass reads the clock once to
  compute the wait (`now`). The firing scan reads it once more after the
  poll (`scanAt`).
- **Stop event.** The loop observes the stop signal as one boolean per pass
  (`Tick`).
- **Callbacks.** Callback bodies are foreign code. They are modelled only by
  the call log entry or the queue entry.

## Model

| member | source | states |
|---|---|---|
| `Tasks.Task.constructor` | sleekxmpp/xmlstream/scheduler.py:44-67 | every field is the given value and the task is first due `seconds` after `now` |
| `Tasks.Task.Reset` | sleekxmpp/xmlstream/scheduler.py:83-87 | the task is next due `seconds` after `now`; nothing else changes |
| `Tasks.Task.Run` | sleekxmpp/xmlstream/scheduler.py:69-81 | returns the repeat flag and restarts the timer; with a queue, exactly one `Schedule(callback, args)` is appended and the call log is untouched; without one, exactly this task is appended to the call log; either way exactly this task is appended to the firing record |
| `Scheduling.WaitFor` | sleekxmpp/xmlstream/scheduler.py:146-149 | the wait is 1 second when nothing is active, and is not positive exactly when the head of the active list is already due |
| `Scheduling.PollFor` | sleekxmpp/xmlstream/scheduler.py:150-156 | the poll is non-blocking exactly when the wait is not positive; a blocking poll lasts more than 0 and at most 3 seconds, equals the wait unless clamped to 3 |
| `Scheduling.WaitIsEarliest` | sleekxmpp/xmlstream/scheduler.py:146-149 | with a sorted list the wait is 1 when nothing is active and otherwise no longer than the time until any active task is due |
| `Scheduling.PollBounded` | sleekxmpp/xmlstream/scheduler.py:146-156 | the loop blocks only when no active task is due, polls without blocking only when the head is due, and blocks for the idle second when nothing is active |
| `Scheduling.FirstStop` | sleekxmpp/xmlstream/scheduler.py:145 | the loop's pass count is the index of the first observation with the stop signal set, or all of them: every earlier one has it clear |
| `Scheduling.FireAt` | sleekxmpp/xmlstream/scheduler.py:161-164 | firing position `i` extends the fired prefix by one: that task restarts and is queued or logged, the cleanup list gains it exactly when it does not repeat, every other task and queue is unchanged |
| `Scheduling.RunDue` | sleekxmpp/xmlstream/scheduler.py:158-166 | exactly the longest due prefix fires, in list order: each queue receives its directives, the call log its direct callbacks and the firing record the fired tasks, in that order; the cleanup list is the prefix's non-repeating tasks in order; `updated` says whether anything fired; unfired tasks are unchanged |
| `Scheduling.ScanDue` | sleekxmpp/xmlstream/scheduler.py:160-166 | the scan's loop stops at the first task not yet due: every task before it has fired once, in order, and is in the cleanup list exactly when it does not repeat; the tasks from there on keep their due times |
| `Scheduling.NothingDueAfterFiring` | sleekxmpp/xmlstream/scheduler.py:157-166 | after the due prefix of a sorted list fires, and with every interval positive, no task of the list is due any more |
| `Scheduling.FindLastNamed` | sleekxmpp/xmlstream/scheduler.py:218-221 | the scan keeps the last task carrying the name, or none when no task does |
| `Scheduling.RemoveTask` | sleekxmpp/xmlstream/scheduler.py:223 | `list.remove` deletes the very position the scan found; the list stays sorted and free of duplicates |
| `Scheduling.RemoveNamed` | sleekxmpp/xmlstream/scheduler.py:218-223 | the active list loses exactly the last task carrying the name, or nothing when none does; the others keep their order, and the list stays sorted and free of duplicates with the queued tasks |
| `Scheduling.Rebuild` | sleekxmpp/xmlstream/scheduler.py:167-177 | the list after cleanup holds exactly the unfired tasks and the fired repeating ones, as a multiset, and for each position of the scanned list whether its task stays; it is sorted, is the old list when nothing fired, and stays free of duplicates with the queued tasks |
| `Scheduling.Scheduler.constructor` | sleekxmpp/xmlstream/scheduler.py:111-123 | a new scheduler has nothing queued, nothing active, nothing retired, an empty call log and firing record, is not running, and satisfies the invariant |
| `Scheduling.Scheduler.Add` | sleekxmpp/xmlstream/scheduler.py:202-213 | fails with `UniqueKeyConstraint("Key <name> already exists")` exactly when an active task has that name; never touches the active list; on failure the queue is unchanged; on success one fresh task with the given fields, due `seconds` after `now`, is appended behind the earlier queued tasks |
| `Scheduling.Scheduler.Remove` | sleekxmpp/xmlstream/scheduler.py:215-227 | no change when no active task has the name; otherwise exactly the last such task is deleted and the others keep their order; the invariant holds |
| `Scheduling.Scheduler.Quit` | sleekxmpp/xmlstream/scheduler.py:229-231 | the running flag is cleared and nothing else changes |
| `Scheduling.Scheduler.Merge` | sleekxmpp/xmlstream/scheduler.py:170-177 | the oldest queued task leaves the queue; the active list becomes a sorted permutation of the old list plus that task; no task is lost or retired |
| `Scheduling.Scheduler.FireDue` | sleekxmpp/xmlstream/scheduler.py:157-177 | the due prefix fires in list order (queues and call log as for `RunDue`), its non-repeating tasks leave the list and are exactly the tasks appended to `retired`, in order; everything else stays; the list is sorted, and untouched when nothing fired; the queue of added tasks is unchanged |
| `Scheduling.NothingDueAfterCleanup` | sleekxmpp/xmlstream/scheduler.py:157-168 | once the due prefix has fired and the cleanup has dropped the non-repeating tasks, no kept task is due at the scan time, provided every kept interval is positive |
| `Scheduling.Scheduler.FireSettled` | sleekxmpp/xmlstream/scheduler.py:157-177 | fires and cleans up as `FireDue` does, and afterwards no active task is due at the scan time, provided every active interval is positive |
| `Scheduling.Scheduler.Install` | sleekxmpp/xmlstream/scheduler.py:167-177 | the active list becomes the cleaned, sorted remains of the scanned list, and the cleanup list is appended to `retired`; the invariant holds |
| `Scheduling.Scheduler.ProcessOnce` | sleekxmpp/xmlstream/scheduler.py:145-178 | the poll is derived from the wait at `now`; a pass merges exactly when a task is queued, and then nothing fires and nothing is called; otherwise the due prefix fires at `scanAt`, in list order, and is cleaned up, its non-repeating tasks joining `retired`, and if every active interval is positive no active task is due at `scanAt` any more; the tasks are conserved: each is still queued or active or has just fired and been retired, and none is created |
| `Scheduling.Scheduler.Process` | sleekxmpp/xmlstream/scheduler.py:141-178 | raises the running flag; iterates exactly once per observation before the first with the stop signal set; the queue loses its oldest task on each pass until it is empty, and each task it lost is then active or retired; the tasks are conserved over the whole run, so a task leaves only after firing, without repeating; keeps the invariant |
| `TaskLists.DueCount` | sleekxmpp/xmlstream/scheduler.py:160-166 | the scan fires a prefix of due tasks and stops at the first task not yet due |
| `TaskLists.SortedDuePrefix` | sleekxmpp/xmlstream/scheduler.py:160-166 | on a sorted list the scan's prefix holds every due task and no other |
| `TaskLists.LastNamed` | sleekxmpp/xmlstream/scheduler.py:218-221 | the scan for a name ends on the last task carrying it, or on none |
| `TaskLists.DirectivesAppend` | sleekxmpp/xmlstream/scheduler.py:76-77 | firing one run of tasks and then another puts their directives on a queue in that order |
| `TaskLists.DirectivesMembers` | sleekxmpp/xmlstream/scheduler.py:76-77 | a queue receives a directive exactly for the fired tasks that point at it, naming that task's callback and arguments |
| `TaskLists.DirectCallsAppend` | sleekxmpp/xmlstream/scheduler.py:78-79 | firing one run of tasks and then another invokes their direct callbacks in that order |
| `TaskLists.DirectCallsCount` | sleekxmpp/xmlstream/scheduler.py:76-79 | a fired task's callback is invoked directly once per firing when it has no queue, and never when it has one |
| `TaskLists.RepeatingSplit` | sleekxmpp/xmlstream/scheduler.py:163-164 | the fired tasks split into those kept and those discarded, with none lost |
| `TaskLists.RetiredFired` | sleekxmpp/xmlstream/scheduler.py:163-164 | every task the scan discards is one of the fired tasks and does not repeat |
| `TaskLists.FiringConserves` | sleekxmpp/xmlstream/scheduler.py:157-177 | a firing and its cleanup conserve the tasks: the old list is the new list plus the discarded tasks, each of which does not repeat and is in the new part of the firing record |
| `TaskLists.MergeConserves` | sleekxmpp/xmlstream/scheduler.py:170-173 | moving the head of the queue into the active list loses no task and retires none |
| `TaskLists.DequeuedActiveOrRetired` | sleekxmpp/xmlstream/scheduler.py:170-177 | when the tasks are conserved and none was queued twice, each task that left the queue is active or retired |
| `TaskLists.SurvivorsMultiset` | sleekxmpp/xmlstream/scheduler.py:167-168 | the kept tasks are the old list less the discarded ones, as multisets |
| `TaskLists.SurvivorsMembers` | sleekxmpp/xmlstream/scheduler.py:160-168 | without duplicates, a task stays exactly when it was not due or repeats |
| `TaskLists.RemoveAtSorted` | sleekxmpp/xmlstream/scheduler.py:223 | deleting one task from a sorted list leaves it sorted |
| `TaskLists.FirstOccurrenceIsOnly` | sleekxmpp/xmlstream/scheduler.py:219-223 | without duplicates, `list.remove` deletes the very position the scan found |
| `TaskLists.RemovalKeepsOrder` | sleekxmpp/xmlstream/scheduler.py:223 | deleting an active task keeps the queue and list free of duplicates and the list sorted |
| `TaskLists.IndexOf` | sleekxmpp/xmlstream/scheduler.py:168 | returns the first position holding the task, as `list.index` does |
| `TaskLists.PopFirst` | sleekxmpp/xmlstream/scheduler.py:168 | exactly one copy of the task leaves the list; nothing else does |
| `TaskLists.DropAll` | sleekxmpp/xmlstream/scheduler.py:167-168 | removes each cleanup task once: what remains plus the cleanup list is the old list as a multiset, and the list is unchanged when the cleanup list is empty |
| `TaskLists.InsertByNext` | sleekxmpp/xmlstream/scheduler.py:176-177 | inserting into a sorted list keeps it sorted and adds exactly that task |
| `TaskLists.SortByNext` | sleekxmpp/xmlstream/scheduler.py:176-177 | the result is sorted by due time and is a permutation of the input |

## Left out

- Threads and the lock are not modelled. `process(threaded=True)` starts a thread and the methods take `schedule_lock`. Each operation here runs atomically. No other thread's `add`, `remove` or `quit` interleaves with a pass, and the model does not cover the loop seeing `quit` from another thread.
- The blocking `get` with a timeout is not modelled as waiting. A pass sees the queue of added tasks as it stands. The time spent waiting shows up only as the later clock reading `scanAt`.
- Each clock read is not modelled separately. The source reads `time.time()` once per task in the scan and again in each `reset`. The model takes one reading for the whole scan.
- `Scheduling.Scheduler.ProcessOnce`: the only promise about `poll` is that it is computed from the head of the list at `now`. How long the pass then blocks is not modelled.
- `KeyboardInterrupt`/`SystemExit` handling, `log.debug` and `UniqueKeyConstraint.__str__` are not modelled. `add` returns `UniqueKeyConstraint` with its message as a value instead of raising it.
- Callbacks are assumed to return normally and not to call back into the scheduler. The source behaves otherwise in two ways:
  - A callback that raises at line 79 skips the task's `reset` (line 80) and the cleanup of lines 167-168. The `finally` block still re-sorts, because `updated` was already set at line 162, and releases the lock. The exception then leaves `_process`, which catches only `KeyboardInterrupt` and `SystemExit`; `SystemExit` also clears `run`.
  - A direct callback runs while the re-entrant lock is held. It may call `remove`, which changes the list the scan at line 160 is walking and can make `index` at line 168 raise. It may also call `quit`.
- `Scheduling.Scheduler.Process`: the whole-run contract does not say what the passes after the queue has emptied fire. Each such pass is a `ProcessOnce`, whose contract states it, but the loop invariant does not carry that fact to the end of the run.
- `Scheduling.NothingDueAfterFiring`: time is an exact `real`; Python's floating-point rounding of `now + seconds` (line 87) and of the wait (line 149) is not modelled. With `time.time()` near 1.7e9, an interval below about 1.2e-7 seconds rounds `next` back to `now`, so the lemma holds only in exact arithmetic.
- The same goes for every other due-time comparison: all of them are stated over exact reals.
- The stop event is not stored as an object. The scheduler's `thread` and `stop` fields do not appear in the model.
- `TaskLists.SortByNext`: it is proved sorted and a permutation. It is not proved stable, as Python's `sorted` is, so the relative order of tasks with equal due times is not fixed by the model.
- `Tasks.Task.constructor`: `args or tuple()` and `kwargs or {}` map a missing or empty argument to the empty one. The model takes a sequence and a map, so "missing" is the empty value.
- Callback bodies and their arguments are not modelled. They are foreign code; argument values are opaque integers.
