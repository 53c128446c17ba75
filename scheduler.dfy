/**
 * The scheduler: a queue of freshly added tasks (`addq`), the active list of
 * tasks ordered by due time (`schedule`) and the running flag. One pass of
 * its processing loop either merges one added task into the active list or
 * fires the tasks that are due.
 */
module Scheduling {
  import opened Tasks
  import opened TaskLists

  /** The wait, in seconds, when no task is active. */
  const IdleWait: real := 1.0
  /** The longest the loop ever blocks waiting for a new task. */
  const MaxWait: real := 3.0

  /** How the loop polls the queue of added tasks. */
  datatype Poll = NonBlocking | Blocking(timeout: real)

  /** Outcome of adding a task: queued, or refused because the name is active. */
  datatype AddOutcome = Added | UniqueKeyConstraint(parameter: string)

  /**
   * What one pass of the loop observes: the clock when the wait is computed,
   * the clock when the firing scan runs, and whether the stop signal is set
   * when the loop condition is checked.
   */
  datatype Tick = Tick(now: real, scanAt: real, stopSet: bool)

  /**
   * The number of passes the loop makes over `ticks`: it stops at the first
   * observation with the stop signal set, or when the observations run out.
   */
  function FirstStop(ticks: seq<Tick>): (n: nat)
    ensures n <= |ticks|
    ensures forall k :: 0 <= k < n ==> !ticks[k].stopSet
    ensures n < |ticks| ==> ticks[n].stopSet
  {
    if ticks == [] || ticks[0].stopSet then 0 else 1 + FirstStop(ticks[1..])
  }

  /** A pass that finds the stop signal clear is one the loop makes. */
  lemma BeforeStop(ticks: seq<Tick>, passes: nat)
    requires passes <= FirstStop(ticks) && passes < |ticks| && !ticks[passes].stopSet
    ensures passes < FirstStop(ticks)
  {
  }

  /**
   * Time left until the first active task is due, or the idle wait when none
   * is. It is not positive exactly when the head of the list is already due.
   */
  function WaitFor(schedule: seq<Task>, now: real): (w: real)
    reads schedule
    ensures schedule == [] ==> w == IdleWait
    ensures w <= 0.0 <==> schedule != [] && schedule[0].next <= now
  {
    if schedule == [] then IdleWait else schedule[0].next - now
  }

  /**
   * A wait that is not positive polls without blocking; a positive one blocks
   * for that long, but never longer than MaxWait.
   */
  function PollFor(wait: real): (p: Poll)
    ensures p.NonBlocking? <==> wait <= 0.0
    ensures p.Blocking? ==> 0.0 < p.timeout <= MaxWait
    ensures p.Blocking? ==> p.timeout <= wait && (p.timeout < wait ==> p.timeout == MaxWait)
  {
    if wait <= 0.0 then NonBlocking
    else if wait >= MaxWait then Blocking(MaxWait)
    else Blocking(wait)
  }

  /**
   * With the active list sorted, the wait is the time until the earliest task
   * is due: no active task is due sooner.
   */
  lemma WaitIsEarliest(schedule: seq<Task>, now: real)
    requires SortedByNext(schedule)
    ensures schedule == [] ==> WaitFor(schedule, now) == IdleWait
    ensures forall k :: 0 <= k < |schedule| ==> WaitFor(schedule, now) <= schedule[k].next - now
  {
  }

  /**
   * The loop blocks only while no active task is due, and for at most
   * MaxWait; with no active task it blocks for the idle wait.
   */
  lemma PollBounded(schedule: seq<Task>, now: real)
    requires SortedByNext(schedule)
    ensures PollFor(WaitFor(schedule, now)).Blocking? ==>
              forall k :: 0 <= k < |schedule| ==> now < schedule[k].next
    ensures PollFor(WaitFor(schedule, now)).NonBlocking? ==> DueCount(schedule, now) > 0
    ensures schedule == [] ==> PollFor(WaitFor(schedule, now)) == Blocking(IdleWait)
  {
    WaitIsEarliest(schedule, now);
  }

  /**
   * Between two states: the first `n` tasks of `s` fired, in order, at `now`
   * (each timer restarted, each queued callback put on its queue and each
   * direct callback recorded in `log`, both in firing order) and nothing else
   * of `s` changed.
   */
  twostate predicate FiredPrefix(s: seq<Task>, n: nat, now: real, log: CallLog)
    requires n <= |s|
    reads s, QueuesOf(s), log
  {
    && (forall k :: 0 <= k < n ==> s[k].next == now + s[k].seconds)
    && (forall k :: n <= k < |s| ==> s[k].next == old(s[k].next))
    && (forall q :: q in QueuesOf(s) ==> q.items == old(q.items) + Directives(q, s[..n]))
    && log.invoked == old(log.invoked) + DirectCalls(s[..n])
    && log.fired == old(log.fired) + s[..n]
  }

  /**
   * The firing scan's progress on timers: the first `i` tasks of `s` have
   * fired at `now` and the rest still have the due times `next0`.
   */
  ghost predicate TimersUpTo(s: seq<Task>, i: nat, now: real, next0: seq<real>)
    requires i <= |s|
    reads s
  {
    && |next0| == |s|
    && (forall k :: 0 <= k < i ==> s[k].next == now + s[k].seconds)
    && (forall k :: i <= k < |s| ==> s[k].next == next0[k])
  }

  /**
   * The firing scan's progress on callbacks: each queue holds its contents
   * from `items0` followed by the directives of the first `i` tasks of `s`,
   * `log` its direct calls from `log0` followed by theirs, and its firings
   * from `fired0` followed by those tasks.
   */
  ghost predicate CalledUpTo(s: seq<Task>, i: nat, items0: map<EventQueue, seq<Directive>>,
                             log: CallLog, log0: seq<Task>, fired0: seq<Task>)
    requires i <= |s|
    reads QueuesOf(s), log
  {
    && (forall q :: q in QueuesOf(s) ==> q in items0 && q.items == items0[q] + Directives(q, s[..i]))
    && log.invoked == log0 + DirectCalls(s[..i])
    && log.fired == fired0 + s[..i]
  }

  /**
   * One step of the scan: fires the task at position `i` of `s` and adds it
   * to the cleanup list when it does not repeat. Only that task, the queue it
   * points at and the call log change.
   */
  method FireAt(s: seq<Task>, i: nat, now: real, cleanup: seq<Task>, ghost next0: seq<real>,
                ghost items0: map<EventQueue, seq<Directive>>, ghost log: CallLog, ghost log0: seq<Task>,
                ghost fired0: seq<Task>)
    returns (cleaned: seq<Task>)
    requires NoDuplicates(s) && i < |s|
    requires cleanup == NonRepeating(s[..i])
    requires TimersUpTo(s, i, now, next0) && CalledUpTo(s, i, items0, log, log0, fired0)
    modifies s[i], s[i].qpointer, log
    ensures cleaned == NonRepeating(s[..i + 1])
    ensures TimersUpTo(s, i + 1, now, next0)
    ensures CalledUpTo(s, i + 1, items0, log, log0, fired0)
  {
    var task := s[i];
    OthersDiffer(s, i);
    DirectCallsStep(s, i);
    NonRepeatingStep(s, i);
    var again := task.Run(now, log);
    cleaned := cleanup;
    if !again {
      cleaned := cleanup + [task];
    }
    assert log.invoked == log0 + DirectCalls(s[..i + 1]);
    assert s[..i + 1] == s[..i] + [task];
    forall q | q in QueuesOf(s)
      ensures q in items0 && q.items == items0[q] + Directives(q, s[..i + 1])
    {
      DirectivesStep(q, s, i);
    }
  }

  /**
   * The firing scan: walks the active list in order, firing every task up
   * to the first one not yet due, and returns the non-repeating tasks among
   * those fired. The list itself is not changed; the fired tasks' timers
   * and the queues they point at are.
   */
  method RunDue(s: seq<Task>, now: real, ghost log: CallLog) returns (cleanup: seq<Task>, updated: bool)
    requires NoDuplicates(s)
    modifies s, QueuesOf(s), log
    ensures var n := old(DueCount(s, now));
            && cleanup == NonRepeating(s[..n])
            && updated == (n > 0)
            && FiredPrefix(s, n, now, log)
  {
    ghost var n := DueCount(s, now);
    ghost var next0, log0, fired0 := NextTimes(s), log.invoked, log.fired;
    ghost var items0 := map q | q in QueuesOf(s) :: q.items;
    cleanup, updated := ScanDue(s, now, next0, items0, log, log0, fired0);
  }

  /**
   * The loop of the firing scan, from the due times `next0`, queue contents
   * `items0` and log entries `log0` and `fired0` it starts from.
   */
  method ScanDue(s: seq<Task>, now: real, ghost next0: seq<real>, ghost items0: map<EventQueue, seq<Directive>>,
                 ghost log: CallLog, ghost log0: seq<Task>, ghost fired0: seq<Task>)
    returns (cleanup: seq<Task>, updated: bool)
    requires NoDuplicates(s)
    requires TimersUpTo(s, 0, now, next0) && CalledUpTo(s, 0, items0, log, log0, fired0)
    modifies s, QueuesOf(s), log
    ensures var n := old(DueCount(s, now));
            && cleanup == NonRepeating(s[..n])
            && updated == (n > 0)
            && TimersUpTo(s, n, now, next0)
            && CalledUpTo(s, n, items0, log, log0, fired0)
  {
    ghost var n := DueCount(s, now);
    cleanup := [];
    updated := false;
    var i := 0;
    while i < |s|
      invariant 0 <= i <= n
      invariant updated == (i > 0)
      invariant cleanup == NonRepeating(s[..i])
      invariant TimersUpTo(s, i, now, next0)
      invariant CalledUpTo(s, i, items0, log, log0, fired0)
    {
      if now >= s[i].next {
        updated := true;
        cleanup := FireAt(s, i, now, cleanup, next0, items0, log, log0, fired0);
        i := i + 1;
      } else {
        break;
      }
    }
    assert i == n;
  }

  /**
   * The scan `remove` makes for a name: walks the whole list and keeps the
   * last task carrying that name, or none.
   */
  method FindLastNamed(s: seq<Task>, name: string) returns (theTask: Task?)
    ensures var k := LastNamed(s, name);
            theTask == if k < 0 then null else s[k]
    ensures theTask != null ==> theTask in s && theTask.name == name
  {
    ghost var found := -1;
    theTask := null;
    var i := 0;
    while i < |s|
      invariant 0 <= i <= |s|
      invariant found == LastNamed(s[..i], name)
      invariant theTask == if found < 0 then null else s[found]
    {
      assert s[..i + 1][..i] == s[..i];
      if s[i].name == name {
        theTask := s[i];
        found := i;
      }
      i := i + 1;
    }
    assert s[..i] == s;
  }

  /**
   * `list.remove`: deletes the first occurrence of `t` from `s`. Without
   * duplicates that is the position `found` the scan saw it at, and the list
   * stays sorted and, with the queued tasks `q`, free of duplicates.
   */
  method RemoveTask(q: seq<Task>, s: seq<Task>, t: Task, ghost found: nat) returns (r: seq<Task>)
    requires found < |s| && s[found] == t
    requires NoDuplicates(q + s) && SortedByNext(s)
    ensures r == s[..found] + s[found + 1..]
    ensures NoDuplicates(q + r) && SortedByNext(r)
  {
    var x := IndexOf(s, t);
    FirstOccurrenceIsOnly(q, s, x, found);
    r := s[..x] + s[x + 1..];
    RemovalKeepsOrder(q, s, x);
  }

  /**
   * What `remove` does to the active list `s`: the last task called `name`
   * is deleted, if there is one. The list stays sorted and, with the queued
   * tasks `q`, free of duplicates.
   */
  method RemoveNamed(q: seq<Task>, s: seq<Task>, name: string) returns (r: seq<Task>)
    requires NoDuplicates(q + s) && SortedByNext(s)
    ensures var k := LastNamed(s, name);
            r == if k < 0 then s else s[..k] + s[k + 1..]
    ensures NoDuplicates(q + r) && SortedByNext(r)
  {
    ghost var found := LastNamed(s, name);
    var theTask := FindLastNamed(s, name);
    r := s;
    if theTask != null {
      r := RemoveTask(q, s, theTask, found);
    }
  }

  /**
   * If the list was sorted and every interval is positive, no task of it is
   * due any more once the due prefix has fired.
   */
  twostate lemma NothingDueAfterFiring(s: seq<Task>, n: nat, now: real, log: CallLog)
    requires n <= |s|
    requires old(SortedByNext(s)) && n == old(DueCount(s, now))
    requires FiredPrefix(s, n, now, log)
    ensures PositiveIntervals(s) ==> forall k :: 0 <= k < |s| ==> now < s[k].next
  {
    forall k | 0 <= k < |s| && PositiveIntervals(s)
      ensures now < s[k].next
    {
      if n <= k {
        assert old(s[n].next) <= old(s[k].next);
      }
    }
  }

  /**
   * Once the due prefix of `s` fired at `now`, no task that the cleanup `r`
   * kept is due at `now` if its interval is positive: a fired one is due
   * `seconds` later, the rest were not due already.
   */
  lemma NothingDueAfterCleanup(s: seq<Task>, n: nat, now: real, r: seq<Task>)
    requires n <= |s| && Cleaned(s, n, r) && PositiveIntervals(r)
    requires forall k :: 0 <= k < n ==> s[k].next == now + s[k].seconds
    requires forall k :: n <= k < |s| ==> now < s[k].next
    ensures NoneDue(r, now)
  {
    SurvivorsMultiset(s, n);
    forall k | 0 <= k < |r|
      ensures now < r[k].next
    {
      assert r[k] in multiset(s);
      var j :| 0 <= j < |s| && s[j] == r[k];
      assert j < n || n <= j;
    }
  }

  /**
   * The cleanup after the firing scan: the discarded tasks leave the list,
   * which is sorted again when anything fired and left as it was otherwise.
   * Together with the queued tasks `queued` it stays free of duplicates.
   */
  method Rebuild(queued: seq<Task>, current: seq<Task>, cleanup: seq<Task>, updated: bool, ghost n: nat)
    returns (rest: seq<Task>)
    requires n <= |current| && cleanup == NonRepeating(current[..n]) && updated == (n > 0)
    requires NoDuplicates(queued + current)
    requires !updated ==> SortedByNext(current)
    ensures SortedByNext(rest)
    ensures Cleaned(current, n, rest)
    ensures NoDuplicates(queued + rest)
  {
    NoDuplicatesSub(queued + current, current);
    SurvivorsMultiset(current, n);
    rest := DropAll(current, cleanup);
    MultisetCancel(multiset(rest), multiset(Survivors(current, n)), multiset(cleanup));
    if updated {
      rest := SortByNext(rest);
    }
    SurvivorsMembers(current, n, rest);
    assert multiset(queued + rest) <= multiset(queued + current);
    NoDuplicatesSub(queued + current, queued + rest);
  }

  class Scheduler {
    /** Tasks added but not yet merged into the active list, oldest first. */
    var addq: seq<Task>
    /** The active tasks, in order of due time. */
    var schedule: seq<Task>
    var running: bool
    /** Where the callbacks of tasks without an event queue are recorded as they are invoked. */
    const log: CallLog
    /** The tasks that fired without repeating and so left the active list, in the order they left. */
    ghost var retired: seq<Task>

    /**
     * No task object is queued or active twice, and the active list is sorted
     * by due time. Names need not be unique: a name still waiting in `addq`
     * does not stop a second task of that name from being added.
     */
    ghost predicate Valid()
      reads this, schedule
    {
      NoDuplicates(addq + schedule) && SortedByNext(schedule)
    }

    /** A new scheduler has nothing queued, nothing active, nothing fired and is not running. */
    constructor ()
      ensures Valid()
      ensures addq == [] && schedule == [] && !running
      ensures log.invoked == [] && log.fired == [] && retired == []
    {
      log := new CallLog();
      retired := [];
      addq := [];
      schedule := [];
      running := false;
    }

    /**
     * Refuses the task when an active task has the same name; otherwise queues
     * a new task with the given fields, due `seconds` after `now`, behind the
     * tasks already queued. The active list is never touched.
     */
    method Add(name: string, seconds: real, callback: CallbackId, args: seq<Value>,
               kwargs: map<string, Value>, repeat: bool, qpointer: EventQueue?, now: real)
      returns (outcome: AddOutcome)
      requires Valid()
      modifies this
      ensures Valid()
      ensures schedule == old(schedule) && running == old(running) && retired == old(retired)
      ensures outcome == Added || outcome == UniqueKeyConstraint("Key " + name + " already exists")
      ensures outcome.UniqueKeyConstraint? <==>
                exists k :: 0 <= k < |schedule| && schedule[k].name == name
      ensures outcome.UniqueKeyConstraint? ==> addq == old(addq)
      ensures outcome.Added? ==>
                |addq| == |old(addq)| + 1 && addq[..|old(addq)|] == old(addq) &&
                var t := addq[|old(addq)|];
                fresh(t) && t.name == name && t.seconds == seconds &&
                t.callback == callback && t.args == args && t.kwargs == kwargs &&
                t.repeat == repeat && t.qpointer == qpointer &&
                t.next == now + seconds
    {
      var i := 0;
      while i < |schedule|
        invariant 0 <= i <= |schedule|
        invariant forall k :: 0 <= k < i ==> schedule[k].name != name
      {
        if schedule[i].name == name {
          return UniqueKeyConstraint("Key " + name + " already exists");
        }
        i := i + 1;
      }
      var t := new Task(name, seconds, callback, args, kwargs, repeat, qpointer, now);
      assert t !in addq + schedule;
      addq := addq + [t];
      assert multiset(addq + schedule) == multiset(old(addq) + old(schedule)) + multiset{t};
      outcome := Added;
    }

    /**
     * Deletes the last active task called `name`, if any; every other task
     * keeps its place relative to the rest. Queued tasks are not affected.
     */
    method Remove(name: string)
      requires Valid()
      modifies this
      ensures Valid()
      ensures addq == old(addq) && running == old(running) && retired == old(retired)
      ensures var k := LastNamed(old(schedule), name);
              schedule == if k < 0 then old(schedule) else old(schedule)[..k] + old(schedule)[k + 1..]
    {
      schedule := RemoveNamed(addq, schedule, name);
    }

    /** Stops the loop at its next check of the running flag. */
    method Quit()
      modifies this
      ensures !running
      ensures addq == old(addq) && schedule == old(schedule) && retired == old(retired)
    {
      running := false;
    }

    /**
     * The branch taken when a queued task arrives: the oldest one leaves the
     * queue and joins the active list, which is sorted again.
     */
    method Merge()
      requires Valid()
      requires addq != []
      modifies this
      ensures Valid()
      ensures addq == old(addq)[1..] && running == old(running) && retired == old(retired)
      ensures multiset(schedule) == multiset(old(schedule)) + multiset{old(addq)[0]}
      ensures Conserved(old(addq + schedule), addq + schedule,
                        old(retired), retired, old(log.fired), log.fired)
    {
      var newtask := addq[0];
      addq := addq[1..];
      schedule := schedule + [newtask];
      schedule := SortByNext(schedule);
      assert old(addq) == [newtask] + addq;
      assert multiset(addq + schedule) == multiset(old(addq) + old(schedule));
      NoDuplicatesSub(old(addq) + old(schedule), addq + schedule);
      MergeConserves(old(addq), old(schedule), addq, schedule, retired, log.fired);
    }

    /**
     * The branch taken when the wait ends with nothing queued: the longest
     * prefix of due tasks fires in order, the non-repeating ones among them
     * leave the active list, the repeating ones stay with their timers
     * restarted, and the rest is left alone. The list is sorted again if
     * anything fired, and untouched otherwise.
     */
    method FireDue(now: real)
      requires Valid()
      modifies this, schedule, QueuesOf(schedule), log
      ensures Valid()
      ensures addq == old(addq) && running == old(running)
      ensures var s0, n := old(schedule), old(DueCount(schedule, now));
              FiredPrefix(s0, n, now, log) && Cleaned(s0, n, schedule)
      ensures retired == old(retired) + NonRepeating(old(schedule)[..old(DueCount(schedule, now))])
    {
      var current := schedule;
      ghost var n := DueCount(current, now);
      assert NoDuplicates(current) by {
        NoDuplicatesSub(addq + current, current);
      }
      var cleanup, updated := RunDue(current, now, log);
      assert FiredPrefix(current, n, now, log);
      if !updated {
        assert forall a, b :: 0 <= a < b < |current| ==> current[a].next <= current[b].next;
      }
      Install(current, cleanup, updated, n);
      assert FiredPrefix(current, n, now, log);
    }

    /**
     * Replaces the active list by what remains of `current` after its first
     * `n` tasks fired, as the cleanup step leaves it; the discarded tasks
     * join the retired ones.
     */
    method Install(current: seq<Task>, cleanup: seq<Task>, updated: bool, ghost n: nat)
      requires n <= |current| && cleanup == NonRepeating(current[..n]) && updated == (n > 0)
      requires NoDuplicates(addq + current)
      requires !updated ==> SortedByNext(current)
      modifies this
      ensures Valid() && Cleaned(current, n, schedule)
      ensures addq == old(addq) && running == old(running) && retired == old(retired) + cleanup
    {
      var rest := Rebuild(addq, current, cleanup, updated, n);
      schedule := rest;
      retired := retired + cleanup;
    }

    /**
     * One pass of the loop body. The wait is read off the head of the active
     * list at `now` and turned into a poll of the queue of added tasks. When
     * a queued task is there it is merged and nothing fires; otherwise the
     * poll gives up and the due tasks fire at `scanAt`, the clock reading the
     * scan takes once the poll has returned. Either way every task is still
     * queued or active, or has just fired and been discarded.
     */
    /**
     * FireDue, together with what it leaves behind: when every interval is
     * positive, no task still scheduled is due at `now`.
     */
    method FireSettled(now: real)
      requires Valid()
      modifies this, schedule, QueuesOf(schedule), log
      ensures Valid()
      ensures addq == old(addq) && running == old(running)
      ensures var s0, n := old(schedule), old(DueCount(schedule, now));
              FiredPrefix(s0, n, now, log) && Cleaned(s0, n, schedule)
      ensures retired == old(retired) + NonRepeating(old(schedule)[..old(DueCount(schedule, now))])
      ensures PositiveIntervals(schedule) ==> NoneDue(schedule, now)
    {
      ghost var s0, n := schedule, DueCount(schedule, now);
      assert forall k :: n <= k < |s0| ==> now < s0[k].next by {
        forall k | n <= k < |s0|
          ensures now < s0[k].next
        {
          assert s0[n].next <= s0[k].next;
        }
      }
      FireDue(now);
      if PositiveIntervals(schedule) {
        NothingDueAfterCleanup(s0, n, now, schedule);
      }
    }

    method ProcessOnce(now: real, scanAt: real) returns (poll: Poll, merged: bool)
      requires Valid()
      modifies this, schedule, QueuesOf(schedule), log
      ensures Valid()
      ensures running == old(running)
      ensures poll == old(PollFor(WaitFor(schedule, now)))
      ensures merged <==> old(addq) != []
      ensures merged ==>
                && addq == old(addq)[1..]
                && multiset(schedule) == multiset(old(schedule)) + multiset{old(addq)[0]}
                && FiredPrefix(old(schedule), 0, scanAt, log)
                && retired == old(retired)
      ensures !merged ==>
                && addq == old(addq)
                && var s0, n := old(schedule), old(DueCount(schedule, scanAt));
                   FiredPrefix(s0, n, scanAt, log) && Cleaned(s0, n, schedule) &&
                   retired == old(retired) + NonRepeating(s0[..n])
      ensures !merged && PositiveIntervals(schedule) ==> NoneDue(schedule, scanAt)
      ensures Conserved(old(addq + schedule), addq + schedule,
                        old(retired), retired, old(log.fired), log.fired)
    {
      poll := PollFor(WaitFor(schedule, now));
      ghost var queued, active, gone, fired := addq, schedule, retired, log.fired;
      if addq != [] {
        merged := true;
        Merge();
        assert queued == [queued[0]] + addq;
      } else {
        merged := false;
        ghost var n := DueCount(schedule, scanAt);
        FireSettled(scanAt);
        FiringConserves([], active, n, schedule, gone, retired, fired, log.fired);
      }
    }

    /**
     * The processing loop: raises the running flag, then makes one pass per
     * observation until the stop signal is seen or the observations run out.
     * The stop signal leaves the flag raised. Each pass merges the oldest
     * queued task while there is one, so the queue loses one task per pass
     * until it is empty, and every task it loses is then active or has fired
     * and been discarded. No task enters the scheduler, and one leaves only by
     * firing without repeating; the invariant holds throughout.
     */
    method Process(ticks: seq<Tick>) returns (passes: nat)
      requires Valid()
      modifies this, (set t | t in addq + schedule), QueuesOf(addq + schedule), log
      ensures Valid() && running
      ensures passes == FirstStop(ticks)
      ensures addq == old(addq)[if passes <= |old(addq)| then passes else |old(addq)|..]
      ensures Conserved(old(addq + schedule), addq + schedule,
                        old(retired), retired, old(log.fired), log.fired)
      ensures var m := if passes <= |old(addq)| then passes else |old(addq)|;
              forall k :: 0 <= k < m ==>
                old(addq)[k] in schedule || old(addq)[k] in retired[|old(retired)|..]
    {
      ghost var all, queued, active, gone, fired := addq + schedule, addq, schedule, retired, log.fired;
      running := true;
      passes := 0;
      while running && passes < |ticks| && !ticks[passes].stopSet
        invariant Valid() && running
        invariant passes <= FirstStop(ticks)
        invariant addq == queued[if passes <= |queued| then passes else |queued|..]
        invariant Conserved(all, addq + schedule, gone, retired, fired, log.fired)
      {
        BeforeStop(ticks, passes);
        var tick := ticks[passes];
        WithinFrame(addq, schedule, all, gone, retired, fired, log.fired);
        ghost var before, left, done := addq + schedule, retired, log.fired;
        var poll, merged := ProcessOnce(tick.now, tick.scanAt);
        ConservedTrans(all, before, addq + schedule, gone, left, retired, fired, done, log.fired);
        passes := passes + 1;
      }
      DequeuedActiveOrRetired(queued, active, if passes <= |queued| then passes else |queued|, addq, schedule,
                              retired[|gone|..]);
    }
  }
}
