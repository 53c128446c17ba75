/**
 * Facts about the lists of tasks the scheduler keeps: ordering by due time,
 * the due prefix the firing scan walks, lookup by name and by identity, and
 * the re-sort the scheduler applies after every change.
 */
module TaskLists {
  import opened Tasks

  /** Ascending by due time, the order the scheduler keeps its active list in. */
  ghost predicate SortedByNext(s: seq<Task>)
    reads s
  {
    forall a, b :: 0 <= a < b < |s| ==> s[a].next <= s[b].next
  }

  /** Every task of `s` repeats after a positive interval. */
  ghost predicate PositiveIntervals(s: seq<Task>) {
    forall t :: t in s ==> 0.0 < t.seconds
  }

  /** No task of `s` is due at `at`. */
  ghost predicate NoneDue(s: seq<Task>, at: real)
    reads s
  {
    forall k :: 0 <= k < |s| ==> at < s[k].next
  }

  /** No task object occurs twice. */
  ghost predicate NoDuplicates(s: seq<Task>)
  {
    forall t :: t in s ==> multiset(s)[t] == 1
  }

  /** The event queues the tasks of `s` point at. */
  function QueuesOf(s: seq<Task>): set<EventQueue>
  {
    set t | t in s && t.qpointer != null :: t.qpointer
  }

  /** The directives that firing `ts`, in order, puts on queue `q`. */
  function Directives(q: EventQueue, ts: seq<Task>): seq<Directive>
  {
    if ts == [] then []
    else
      var last := ts[|ts| - 1];
      Directives(q, ts[..|ts| - 1]) +
        (if last.qpointer == q then [Schedule(last.callback, last.args)] else [])
  }

  /**
   * Firing `a` and then `b` puts on queue `q` the directives of `a` followed
   * by those of `b`: each queue receives its directives in firing order.
   */
  lemma {:induction false} DirectivesAppend(q: EventQueue, a: seq<Task>, b: seq<Task>)
    ensures Directives(q, a + b) == Directives(q, a) + Directives(q, b)
  {
    if b == [] {
      assert a + b == a;
    } else {
      var init := b[..|b| - 1];
      DirectivesAppend(q, a, init);
      assert (a + b)[..|a + b| - 1] == a + init;
    }
  }

  /**
   * Queue `q` receives a directive exactly for the tasks of `ts` that point
   * at it, and each directive names that task's callback and arguments.
   */
  lemma {:induction false} DirectivesMembers(q: EventQueue, ts: seq<Task>, d: Directive)
    ensures d in Directives(q, ts) <==>
              exists k :: 0 <= k < |ts| && ts[k].qpointer == q && d == Schedule(ts[k].callback, ts[k].args)
  {
    if ts != [] {
      var init := ts[..|ts| - 1];
      DirectivesMembers(q, init, d);
      if exists k :: 0 <= k < |init| && init[k].qpointer == q && d == Schedule(init[k].callback, init[k].args) {
        var k :| 0 <= k < |init| && init[k].qpointer == q && d == Schedule(init[k].callback, init[k].args);
        assert ts[k] == init[k];
      }
      if exists k :: 0 <= k < |ts| && ts[k].qpointer == q && d == Schedule(ts[k].callback, ts[k].args) {
        var k :| 0 <= k < |ts| && ts[k].qpointer == q && d == Schedule(ts[k].callback, ts[k].args);
        if k < |init| {
          assert init[k] == ts[k];
        }
      }
    }
  }

  /** Firing one more task of `s` adds its directive, if any, to the end of queue `q`'s share. */
  lemma DirectivesStep(q: EventQueue, s: seq<Task>, i: nat)
    requires i < |s|
    ensures Directives(q, s[..i + 1]) ==
              Directives(q, s[..i]) + (if s[i].qpointer == q then [Schedule(s[i].callback, s[i].args)] else [])
  {
    assert s[..i + 1][..i] == s[..i];
  }

  /** The tasks of `ts` without an event queue, in order: those whose callbacks firing `ts` invokes directly. */
  function DirectCalls(ts: seq<Task>): seq<Task>
  {
    if ts == [] then []
    else
      var last := ts[|ts| - 1];
      DirectCalls(ts[..|ts| - 1]) + (if last.qpointer == null then [last] else [])
  }

  /** Firing one more task of `s` records it, if it has no queue, after the earlier direct calls. */
  lemma DirectCallsStep(s: seq<Task>, i: nat)
    requires i < |s|
    ensures DirectCalls(s[..i + 1]) == DirectCalls(s[..i]) + (if s[i].qpointer == null then [s[i]] else [])
  {
    assert s[..i + 1][..i] == s[..i];
  }

  /** Firing `a` and then `b` invokes the direct callbacks of `a` before those of `b`. */
  lemma {:induction false} DirectCallsAppend(a: seq<Task>, b: seq<Task>)
    ensures DirectCalls(a + b) == DirectCalls(a) + DirectCalls(b)
  {
    if b == [] {
      assert a + b == a;
    } else {
      var init := b[..|b| - 1];
      DirectCallsAppend(a, init);
      assert (a + b)[..|a + b| - 1] == a + init;
    }
  }

  /**
   * A task's callback is invoked directly as often as the task occurs in
   * `ts` when it has no event queue, and never when it has one.
   */
  lemma {:induction false} DirectCallsCount(ts: seq<Task>, t: Task)
    ensures multiset(DirectCalls(ts))[t] == if t.qpointer == null then multiset(ts)[t] else 0
  {
    if ts != [] {
      var init := ts[..|ts| - 1];
      DirectCallsCount(init, t);
      assert ts == init + [ts[|ts| - 1]];
    }
  }

  /** The due times of the tasks of `s`, position by position. */
  ghost function NextTimes(s: seq<Task>): (r: seq<real>)
    reads s
    ensures |r| == |s| && forall k :: 0 <= k < |s| ==> r[k] == s[k].next
  {
    if s == [] then [] else NextTimes(s[..|s| - 1]) + [s[|s| - 1].next]
  }


  /** The non-repeating tasks of `s`, in order: those a firing discards. */
  function NonRepeating(s: seq<Task>): seq<Task>
  {
    if s == [] then []
    else NonRepeating(s[..|s| - 1]) + (if s[|s| - 1].repeat then [] else [s[|s| - 1]])
  }

  /** Scanning one more task of `s` discards it exactly when it does not repeat. */
  lemma NonRepeatingStep(s: seq<Task>, i: nat)
    requires i < |s|
    ensures NonRepeating(s[..i + 1]) == NonRepeating(s[..i]) + (if s[i].repeat then [] else [s[i]])
  {
    assert s[..i + 1][..i] == s[..i];
  }

  /** The repeating tasks of `s`, in order: those a firing keeps. */
  function Repeating(s: seq<Task>): seq<Task>
  {
    if s == [] then []
    else Repeating(s[..|s| - 1]) + (if s[|s| - 1].repeat then [s[|s| - 1]] else [])
  }

  /** What remains of `s` once its first `n` tasks fired and the non-repeating ones among them left. */
  function Survivors(s: seq<Task>, n: nat): seq<Task>
    requires n <= |s|
  {
    Repeating(s[..n]) + s[n..]
  }

  /**
   * Length of the longest prefix of `s` whose tasks are due at `now`: the
   * tasks the firing scan runs before it meets the first task not yet due.
   */
  function DueCount(s: seq<Task>, now: real): (n: nat)
    reads s
    ensures n <= |s|
    ensures forall k :: 0 <= k < n ==> s[k].next <= now
    ensures n < |s| ==> now < s[n].next
  {
    if s == [] || now < s[0].next then 0 else 1 + DueCount(s[1..], now)
  }

  /**
   * Index of the last task in `s` called `name`, or -1 when there is none: the
   * task a scan that remembers every match ends up holding.
   */
  function LastNamed(s: seq<Task>, name: string): (r: int)
    ensures -1 <= r < |s|
    ensures 0 <= r ==> s[r].name == name
    ensures forall k :: r < k < |s| ==> s[k].name != name
  {
    if s == [] then -1
    else if s[|s| - 1].name == name then |s| - 1
    else LastNamed(s[..|s| - 1], name)
  }

  lemma NoDuplicatesAt(s: seq<Task>, a: int, b: int)
    requires NoDuplicates(s)
    requires 0 <= a < b < |s|
    ensures s[a] != s[b]
  {
    var x := s[b];
    assert s == s[..b] + s[b..];
    assert multiset(s)[x] == multiset(s[..b])[x] + multiset(s[b..])[x];
    assert s[b..][0] == x;
    assert x !in s[..b];
    assert s[..b][a] == s[a];
  }

  /** Without duplicates, the task at `i` is no other position's task. */
  lemma OthersDiffer(s: seq<Task>, i: nat)
    requires NoDuplicates(s) && i < |s|
    ensures forall k :: 0 <= k < |s| && k != i ==> s[k] != s[i]
  {
    forall k | 0 <= k < |s| && k != i
      ensures s[k] != s[i]
    {
      if k < i { NoDuplicatesAt(s, k, i); } else { NoDuplicatesAt(s, i, k); }
    }
  }

  /** In a list sorted by due time the scan's prefix holds every due task and no other. */
  lemma SortedDuePrefix(s: seq<Task>, now: real)
    requires SortedByNext(s)
    ensures forall k :: 0 <= k < |s| ==> (k < DueCount(s, now) <==> s[k].next <= now)
  {
  }

  /** Taking one element out of a sorted list leaves it sorted. */
  lemma RemoveAtSorted(s: seq<Task>, i: nat)
    requires i < |s|
    requires SortedByNext(s)
    ensures SortedByNext(s[..i] + s[i + 1..])
  {
    var r := s[..i] + s[i + 1..];
    forall a, b | 0 <= a < b < |r|
      ensures r[a].next <= r[b].next
    {
      var a' := if a < i then a else a + 1;
      var b' := if b < i then b else b + 1;
      assert r[a] == s[a'] && r[b] == s[b'];
    }
  }

  /** Firing splits a prefix into the tasks kept and the tasks discarded, losing none. */
  lemma {:induction false} RepeatingSplit(s: seq<Task>)
    ensures multiset(Repeating(s)) + multiset(NonRepeating(s)) == multiset(s)
  {
    if s != [] {
      var init, last := s[..|s| - 1], s[|s| - 1];
      RepeatingSplit(init);
      assert s == init + [last];
      if last.repeat {
        assert Repeating(s) == Repeating(init) + [last] && NonRepeating(s) == NonRepeating(init);
      } else {
        assert Repeating(s) == Repeating(init) && NonRepeating(s) == NonRepeating(init) + [last];
      }
    }
  }

  lemma {:induction false} RepeatingMembers(s: seq<Task>, t: Task)
    ensures t in Repeating(s) <==> t in s && t.repeat
  {
    if s != [] {
      RepeatingMembers(s[..|s| - 1], t);
      assert s == s[..|s| - 1] + [s[|s| - 1]];
    }
  }

  /**
   * `r` is what remains of `s` once its first `n` tasks have fired: the
   * survivors as a multiset, a task of `s` staying exactly when it was not
   * due or repeats, and `s` itself when nothing fired.
   */
  ghost predicate Cleaned(s: seq<Task>, n: nat, r: seq<Task>)
    requires n <= |s|
  {
    && multiset(r) == multiset(Survivors(s, n))
    && (forall k :: 0 <= k < |s| ==> (s[k] in r <==> n <= k || s[k].repeat))
    && (n == 0 ==> r == s)
  }

  /**
   * Between two points of the loop: the tasks of `before` are exactly those
   * of `after` together with the tasks that left the scheduler meanwhile,
   * the part of `gone` beyond `gone0`. Each of those does not repeat and has
   * fired meanwhile, in the part of the firing record `fired` beyond `fired0`.
   */
  ghost predicate Conserved(before: seq<Task>, after: seq<Task>, gone0: seq<Task>, gone: seq<Task>,
                            fired0: seq<Task>, fired: seq<Task>)
  {
    && gone0 <= gone && fired0 <= fired
    && multiset(after) + multiset(gone[|gone0|..]) == multiset(before)
    && (forall t :: t in gone[|gone0|..] ==> !t.repeat && t in fired[|fired0|..])
  }

  /** Two stretches of the loop that each conserve the tasks together conserve them. */
  lemma ConservedTrans(a: seq<Task>, b: seq<Task>, c: seq<Task>, g0: seq<Task>, g1: seq<Task>, g2: seq<Task>,
                       f0: seq<Task>, f1: seq<Task>, f2: seq<Task>)
    requires Conserved(a, b, g0, g1, f0, f1) && Conserved(b, c, g1, g2, f1, f2)
    ensures Conserved(a, c, g0, g2, f0, f2)
  {
    assert g2[|g0|..] == g1[|g0|..] + g2[|g1|..];
    assert f2[|f0|..] == f1[|f0|..] + f2[|f1|..];
  }

  /** The tasks a firing discards are the non-repeating ones. */
  lemma {:induction false} RetiredFired(s: seq<Task>)
    ensures forall t :: t in NonRepeating(s) ==> t in s && !t.repeat
  {
    if s != [] {
      RetiredFired(s[..|s| - 1]);
    }
  }

  /** Moving the head of the queue into the active list conserves the tasks, and none leaves. */
  lemma MergeConserves(q: seq<Task>, s: seq<Task>, q': seq<Task>, s': seq<Task>, gone: seq<Task>,
                       fired: seq<Task>)
    requires q != [] && q' == q[1..] && multiset(s') == multiset(s) + multiset{q[0]}
    ensures Conserved(q + s, q' + s', gone, gone, fired, fired)
  {
    assert q == [q[0]] + q';
    assert gone[|gone|..] == [];
  }

  /**
   * A firing of the first `n` tasks of `s`, recorded after `fired0`, and
   * cleaned up into `r` conserves the tasks, with the queued ones `q`, up to
   * the discarded ones, which join `gone0`.
   */
  lemma FiringConserves(q: seq<Task>, s: seq<Task>, n: nat, r: seq<Task>, gone0: seq<Task>, gone: seq<Task>,
                        fired0: seq<Task>, fired: seq<Task>)
    requires n <= |s| && Cleaned(s, n, r) && gone == gone0 + NonRepeating(s[..n])
    requires fired == fired0 + s[..n]
    ensures Conserved(q + s, q + r, gone0, gone, fired0, fired)
  {
    SurvivorsMultiset(s, n);
    RetiredFired(s[..n]);
    assert gone[|gone0|..] == NonRepeating(s[..n]);
    assert fired[|fired0|..] == s[..n];
  }

  /**
   * Once the first `m` queued tasks have left the queue `q`, and the tasks
   * are conserved up to those that left, `gone`, each of those `m` tasks is
   * either in the active list `s` or among `gone`.
   */
  lemma DequeuedActiveOrRetired(queued: seq<Task>, active: seq<Task>, m: nat, q: seq<Task>, s: seq<Task>,
                                gone: seq<Task>)
    requires NoDuplicates(queued + active) && m <= |queued| && q == queued[m..]
    requires multiset(q + s) + multiset(gone) == multiset(queued + active)
    ensures forall k :: 0 <= k < m ==> queued[k] in s || queued[k] in gone
  {
    var all := queued + active;
    forall k | 0 <= k < m
      ensures queued[k] in s || queued[k] in gone
    {
      var t := queued[k];
      assert all[k] == t;
      assert t in multiset(all);
      if t in q {
        var j :| 0 <= j < |q| && q[j] == t;
        assert all[m + j] == q[j];
        NoDuplicatesAt(all, k, m + j);
      }
      assert t in multiset(q + s) || t in multiset(gone);
    }
  }

  /**
   * Tasks drawn from `all` (queued ones in `q`, active ones in `s`) lie in
   * `all`, and so do the queues they point at.
   */
  lemma WithinFrame(q: seq<Task>, s: seq<Task>, all: seq<Task>, g0: seq<Task>, g: seq<Task>,
                    f0: seq<Task>, f: seq<Task>)
    requires Conserved(all, q + s, g0, g, f0, f)
    ensures forall t :: t in s ==> t in all
    ensures QueuesOf(s) <= QueuesOf(all)
  {
    assert multiset(q + s) <= multiset(all);
    forall t | t in s
      ensures t in all
    {
      assert t in multiset(q + s);
    }
  }

  /** The survivors are the old tasks less the discarded ones, as a multiset. */
  lemma SurvivorsMultiset(s: seq<Task>, n: nat)
    requires n <= |s|
    ensures multiset(Survivors(s, n)) + multiset(NonRepeating(s[..n])) == multiset(s)
    ensures multiset(NonRepeating(s[..n])) <= multiset(s)
  {
    RepeatingSplit(s[..n]);
    assert s == s[..n] + s[n..];
    assert multiset(s) == multiset(s[..n]) + multiset(s[n..]);
    assert multiset(Survivors(s, n)) == multiset(Repeating(s[..n])) + multiset(s[n..]);
  }

  /**
   * Without duplicates, a task is in any rearrangement `r` of the survivors of
   * a firing of the first `n` tasks exactly when it was not among them or it
   * repeats.
   */
  lemma SurvivorsMembers(s: seq<Task>, n: nat, r: seq<Task>)
    requires n <= |s|
    requires NoDuplicates(s)
    requires multiset(r) == multiset(Survivors(s, n))
    ensures forall k :: 0 <= k < |s| ==> (s[k] in r <==> n <= k || s[k].repeat)
  {
    forall k | 0 <= k < |s|
      ensures s[k] in r <==> n <= k || s[k].repeat
    {
      assert s[k] in r <==> s[k] in multiset(Survivors(s, n));
      RepeatingMembers(s[..n], s[k]);
      if k < n && s[k] in s[n..] {
        var j :| 0 <= j < |s[n..]| && s[n..][j] == s[k];
        NoDuplicatesAt(s, k, n + j);
      }
      if k < n && s[k].repeat {
        assert s[k] == s[..n][k];
      }
      if n <= k {
        assert s[k] == s[n..][k - n];
      }
    }
  }

  /**
   * In a queue and active list without duplicates, the first occurrence of the
   * object found at `found` in the active list is `found` itself.
   */
  lemma FirstOccurrenceIsOnly(q: seq<Task>, s: seq<Task>, x: nat, found: nat)
    requires NoDuplicates(q + s)
    requires x < |s| && found < |s| && s[x] == s[found]
    ensures x == found
  {
    NoDuplicatesSub(q + s, s);
    if x < found {
      NoDuplicatesAt(s, x, found);
    } else if found < x {
      NoDuplicatesAt(s, found, x);
    }
  }

  /** Removing one active task keeps the queue and list free of duplicates and the list sorted. */
  lemma RemovalKeepsOrder(q: seq<Task>, s: seq<Task>, x: nat)
    requires x < |s|
    requires NoDuplicates(q + s) && SortedByNext(s)
    ensures NoDuplicates(q + (s[..x] + s[x + 1..])) && SortedByNext(s[..x] + s[x + 1..])
  {
    RemoveAtSorted(s, x);
    assert s == s[..x] + [s[x]] + s[x + 1..];
    NoDuplicatesSub(q + s, q + (s[..x] + s[x + 1..]));
  }

  /** Popping position `x` takes exactly that one task out of the multiset. */
  lemma PopOne(s: seq<Task>, x: nat)
    requires x < |s|
    ensures multiset(s[..x] + s[x + 1..]) == multiset(s) - multiset{s[x]}
  {
    assert s == s[..x] + [s[x]] + s[x + 1..];
  }

  /**
   * While the tasks of `c` are taken out of `s` one by one, with `rest` what
   * is left after the first `j`, the next one is still in `rest`.
   */
  lemma NextPresent(s: seq<Task>, c: seq<Task>, j: nat, rest: seq<Task>)
    requires j < |c| && multiset(c) <= multiset(s)
    requires multiset(rest) + multiset(c[..j]) == multiset(s)
    ensures c[j] in rest
  {
    var t := c[j];
    assert c == c[..j] + [t] + c[j + 1..];
    assert multiset(c)[t] >= multiset(c[..j])[t] + 1;
    assert multiset(rest)[t] > 0;
  }

  /** Taking the next task of `c` out of `rest` moves it from one side of the sum to the other. */
  lemma Popped(s: seq<Task>, c: seq<Task>, j: nat, rest: seq<Task>, r: seq<Task>)
    requires j < |c| && c[j] in rest
    requires multiset(rest) + multiset(c[..j]) == multiset(s)
    requires multiset(r) == multiset(rest) - multiset{c[j]}
    ensures multiset(r) + multiset(c[..j + 1]) == multiset(s)
  {
    assert c[..j + 1] == c[..j] + [c[j]];
    assert multiset(rest) == multiset(r) + multiset{c[j]};
  }

  lemma MultisetCancel(a: multiset<Task>, b: multiset<Task>, c: multiset<Task>)
    requires a + c == b + c
    ensures a == b
  {
    assert forall t :: a[t] == (a + c)[t] - c[t];
  }

  /** A sub-multiset of a list without duplicates has none either. */
  lemma NoDuplicatesSub(s: seq<Task>, r: seq<Task>)
    requires NoDuplicates(s)
    requires multiset(r) <= multiset(s)
    ensures NoDuplicates(r)
  {
    forall t | t in r
      ensures multiset(r)[t] == 1
    {
      assert multiset(r)[t] <= multiset(s)[t];
    }
  }

  /** Position of the first occurrence of task object `t`, as Python's list.index finds it. */
  method IndexOf(s: seq<Task>, t: Task) returns (i: nat)
    requires t in s
    ensures i < |s| && s[i] == t
    ensures forall k :: 0 <= k < i ==> s[k] != t
  {
    i := 0;
    while s[i] != t
      invariant i < |s|
      invariant t in s[i..]
      invariant forall k :: 0 <= k < i ==> s[k] != t
      decreases |s| - i
    {
      assert s[i..] == [s[i]] + s[i + 1..];
      i := i + 1;
    }
  }

  /** Deletes the first occurrence of `t`: one copy of `t` leaves, nothing else does. */
  method PopFirst(s: seq<Task>, t: Task) returns (r: seq<Task>)
    requires t in s
    ensures multiset(r) == multiset(s) - multiset{t}
    ensures |r| == |s| - 1
  {
    var x := IndexOf(s, t);
    PopOne(s, x);
    r := s[..x] + s[x + 1..];
  }

  /**
   * The cleanup after a firing scan: each task of `cleanup` leaves `s` at the
   * first position it is found, as Python's list.index and list.pop remove it.
   */
  method DropAll(s: seq<Task>, cleanup: seq<Task>) returns (rest: seq<Task>)
    requires multiset(cleanup) <= multiset(s)
    ensures multiset(rest) + multiset(cleanup) == multiset(s)
    ensures cleanup == [] ==> rest == s
  {
    rest := s;
    var j := 0;
    while j < |cleanup|
      invariant 0 <= j <= |cleanup|
      invariant multiset(rest) + multiset(cleanup[..j]) == multiset(s)
      invariant j == 0 ==> rest == s
    {
      NextPresent(s, cleanup, j, rest);
      var r := PopFirst(rest, cleanup[j]);
      Popped(s, cleanup, j, rest, r);
      rest := r;
      j := j + 1;
    }
    assert cleanup[..j] == cleanup;
  }

  /** Inserts `t` after every task due no later than it, keeping the list sorted. */
  method InsertByNext(s: seq<Task>, t: Task) returns (r: seq<Task>)
    requires SortedByNext(s)
    ensures SortedByNext(r)
    ensures multiset(r) == multiset(s) + multiset{t}
  {
    var j := 0;
    while j < |s| && s[j].next <= t.next
      invariant 0 <= j <= |s|
      invariant forall k :: 0 <= k < j ==> s[k].next <= t.next
    {
      j := j + 1;
    }
    r := s[..j] + [t] + s[j..];
    assert s == s[..j] + s[j..];
    assert multiset(r) == multiset(s[..j]) + multiset{t} + multiset(s[j..]);
    InsertedSorted(s, j, t, r);
  }

  lemma InsertedSorted(s: seq<Task>, j: nat, t: Task, r: seq<Task>)
    requires j <= |s| && r == s[..j] + [t] + s[j..]
    requires SortedByNext(s)
    requires forall k :: 0 <= k < j ==> s[k].next <= t.next
    requires j < |s| ==> t.next < s[j].next
    ensures SortedByNext(r)
  {
    assert forall k :: 0 <= k < j ==> r[k] == s[k];
    assert r[j] == t;
    assert forall k :: j < k < |r| ==> r[k] == s[k - 1];
    assert forall k :: j < k < |r| ==> t.next <= r[k].next;
  }

  /**
   * The list re-sorted ascending by due time, as the scheduler's call to
   * Python's `sorted` with `next` as key produces it.
   */
  method SortByNext(s: seq<Task>) returns (r: seq<Task>)
    ensures SortedByNext(r)
    ensures multiset(r) == multiset(s)
  {
    r := [];
    var i := 0;
    while i < |s|
      invariant 0 <= i <= |s|
      invariant SortedByNext(r)
      invariant multiset(r) == multiset(s[..i])
    {
      r := InsertByNext(r, s[i]);
      assert s[..i + 1] == s[..i] + [s[i]];
      i := i + 1;
    }
    assert s[..i] == s;
  }
}
