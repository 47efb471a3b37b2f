/** What the one-to-one report column does to the queue manager once it is enforced. */
module BlockedQueue {
  import opened Wrappers
  import opened Ordering
  import opened TaskTable
  import opened QueueManager
  import opened QueueRuns

  /** Nothing runs, and the head of the queue already has a finished result. */
  ghost predicate HeadHasResult(s: System) {
    && WellTimed(s.t, s.clock) && RunningIds(s.t) == {} && Schedule(s.t, s.clock) != []
    && Reusable(QueueManagerPolicy, s.t, Schedule(s.t, s.clock)[0])
  }

  lemma AbortsExactlyWhenHeadHasResult(s: System, now: Time, u: Table, r: Selection, gifts: map<TaskId, Gift>)
    requires WellTimed(s.t, s.clock) && Selects(true, s.t, s.clock, now, u, r, gifts)
    ensures r == Aborted <==> HeadHasResult(s)
    ensures r == Aborted ==> u == s.t
  {
    var sched := Schedule(s.t, s.clock);
    assert SkipCount(QueueManagerPolicy, s.t, sched) > 0 <==>
           sched != [] && Reusable(QueueManagerPolicy, s.t, sched[0]);
  }

  /** The worker is polling a queue it cannot get past. */
  ghost predicate Blocked(s: System) { s.phase.Polling? && HeadHasResult(s) }

  /** The purl at the head once the task is enqueued on a table that does not hold it yet. */
  ghost function HeadPurl(t: Table, clock: Time, task: Task): string
    requires WellTimed(t, clock)
  {
    var s := Schedule(t, clock);
    assert s != [] ==> s[0] in s;
    if s == [] || t[s[0]].priority < task.priority then task.purl else t[s[0]].purl
  }

  /** Without its old row, if it has one, the enqueued task leaves a head that has a finished result. */
  ghost predicate KeepsBlocked(s: System, e: Event) {
    e.Enqueue? ==>
      var rest := s.t - {e.id};
      WellTimed(rest, s.clock) && HasResult(rest, HeadPurl(rest, s.clock, e.task))
  }

  lemma WithoutRow(t: Table, clock: Time, id: TaskId)
    requires WellTimed(t, clock)
    ensures WellTimed(t - {id}, clock) && QueuedIds(t - {id}) == QueuedIds(t) - {id}
  {
    forall q ensures q in QueuedIds(t - {id}) <==> q in QueuedIds(t) && q != id { }
  }

  /** The head after a task is enqueued: the task itself if it outranks the old head, else the old head. */
  lemma HeadAfterEnqueue(rest: Table, clock: Time, id: TaskId, row: Task, now: Time)
    requires WellTimed(rest, clock) && id !in rest && clock < now
    requires row.status == Queued && row.queuedAt == Some(now)
    ensures var u := rest[id := row];
            && WellTimed(u, now) && Schedule(u, now) != [] && Schedule(u, now)[0] in u
            && u[Schedule(u, now)[0]].purl == HeadPurl(rest, clock, row)
  {
    var u, s := rest[id := row], Schedule(rest, clock);
    forall q ensures q in QueuedIds(u) <==> q in QueuedIds(rest) || q == id { }
    assert s != [] ==> s[0] in s;
    if s == [] || rest[s[0]].priority < row.priority {
      forall q | q in QueuedIds(u) && q != id ensures Before(u, id, q) {
        AtRank(rest, clock, q);
        if Rank(rest, q) > 0 { assert ByTime(rest)(s[0], s[Rank(rest, q)]); }
      }
      HeadIsFirst(u, now, id);
    } else {
      assert s[0] in s;
      forall q | q in QueuedIds(u) && q != s[0] ensures Before(u, s[0], q) {
        if q != id {
          AtRank(rest, clock, q);
          assert ByTime(rest)(s[0], s[Rank(rest, q)]);
        }
      }
      HeadIsFirst(u, now, s[0]);
    }
  }

  /** A queued row is nobody's donor. */
  lemma SameResults(rest: Table, id: TaskId, row: Task, p: string)
    requires id !in rest && row.status == Queued
    ensures HasResult(rest[id := row], p) <==> HasResult(rest, p)
  {
    var u := rest[id := row];
    if HasResult(u, p) {
      var d :| d in u && Donor(u, p, d);
      assert Donor(rest, p, d);
    }
    if HasResult(rest, p) {
      var d :| d in rest && Donor(rest, p, d);
      assert Donor(u, p, d);
    }
  }

  lemma EnqueueBlocks(s: System, e: Event, s': System)
    requires Inv(s) && s.phase.Polling? && RunningIds(s.t) == {} && e.Enqueue? && Step(true, s, e, s')
    ensures Blocked(s') <==> KeepsBlocked(s, e)
  {
    var position :| IsNextPosition(s.t, position) && s'.t == Enqueued(s.t, e.id, e.task, position, e.now);
    var rest := s.t - {e.id};
    var row := e.task.(status := Queued, queuePosition := Some(position), queuedAt := Some(e.now));
    assert s'.t == rest[e.id := row];
    WithoutRow(s.t, s.clock, e.id);
    HeadAfterEnqueue(rest, s.clock, e.id, row, e.now);
    SameResults(rest, e.id, row, HeadPurl(rest, s.clock, row));
    assert HeadPurl(rest, s.clock, row) == HeadPurl(rest, s.clock, e.task);
    forall q ensures q !in RunningIds(s'.t) {
      assert q != e.id && q in RunningIds(s'.t) ==> q in RunningIds(s.t);
    }
  }

  /** A blocked worker stays blocked across a step exactly if the step is no enqueue that changes that. */
  lemma StepStaysBlocked(s: System, e: Event, s': System)
    requires Inv(s) && Blocked(s) && Step(true, s, e, s')
    ensures Blocked(s') <==> KeepsBlocked(s, e)
    ensures !e.Enqueue? ==> s'.t == s.t
    ensures QueuedIds(s.t) <= QueuedIds(s'.t)
  {
    match e
    case Enqueue(x, task, now) =>
      EnqueueBlocks(s, e, s');
    case CheckTimeouts(now) =>
      assert TimedOutIds(s.t, now) == {} by {
        forall q | q in TimedOutIds(s.t, now) ensures q in RunningIds(s.t) { }
      }
      ScheduleUnderLaterClock(s.t, s.clock, now);
    case Select(now) =>
      var r, gifts :| Selects(true, s.t, s.clock, now, s'.t, r, gifts) && s'.phase == PhaseAfter(r, s'.t);
      AbortsExactlyWhenHeadHasResult(s, now, s'.t, r, gifts);
      ScheduleUnderLaterClock(s.t, s.clock, now);
    case Interrupt =>
  }

  lemma ScheduleUnderLaterClock(t: Table, clock: Time, later: Time)
    requires WellTimed(t, clock) && clock <= later
    ensures WellTimed(t, later) && Schedule(t, later) == Schedule(t, clock)
  {
    ScheduleIs(t, later, Schedule(t, clock));
  }

  ghost predicate NextIsBlockedIfKept(states: seq<System>, events: seq<Event>, n: nat)
    requires n < |events| && |events| < |states|
  {
    && (Blocked(states[n + 1]) <==> KeepsBlocked(states[n], events[n]))
    && QueuedIds(states[n].t) <= QueuedIds(states[n + 1].t)
  }

  lemma RunStepStaysBlocked(states: seq<System>, events: seq<Event>, n: nat)
    requires Run(true, states, events) && n < |events| && Blocked(states[n])
    ensures NextIsBlockedIfKept(states, events, n)
  {
    RunKeepsInv(true, states, events, n);
    StepStaysBlocked(states[n], events[n], states[n + 1]);
  }

  ghost predicate BlockedThroughout(states: seq<System>, first: nat, last: nat)
    requires first <= last < |states|
  {
    forall i :: first <= i <= last ==> Blocked(states[i])
  }

  ghost predicate AllKeepBlocked(states: seq<System>, events: seq<Event>, first: nat, last: nat)
    requires first <= last <= |events| && |events| < |states|
  {
    forall i :: first <= i < last ==> KeepsBlocked(states[i], events[i])
  }

  /** Blocked up to `last` exactly if every step keeps it so, and then no task has left the queue. */
  ghost predicate BlockedAsKept(states: seq<System>, events: seq<Event>, first: nat, last: nat)
    requires first <= last <= |events| && |events| < |states|
  {
    && (BlockedThroughout(states, first, last) <==> AllKeepBlocked(states, events, first, last))
    && (BlockedThroughout(states, first, last) ==> QueuedIds(states[first].t) <= QueuedIds(states[last].t))
  }

  /** After every blocked state the next one is blocked exactly if the step keeps it so. */
  ghost predicate BlockedStepByStep(states: seq<System>, events: seq<Event>)
    requires |events| < |states|
  {
    forall n {:trigger NextIsBlockedIfKept(states, events, n)} ::
      0 <= n < |events| && Blocked(states[n]) ==> NextIsBlockedIfKept(states, events, n)
  }

  lemma RunStepsStayBlocked(states: seq<System>, events: seq<Event>)
    requires Run(true, states, events)
    ensures BlockedStepByStep(states, events)
  {
    forall n | 0 <= n < |events| && Blocked(states[n]) ensures NextIsBlockedIfKept(states, events, n) {
      RunStepStaysBlocked(states, events, n);
    }
  }

  lemma NextWhileBlocked(states: seq<System>, events: seq<Event>, first: nat, last: nat)
    requires first < last <= |events| && |events| < |states| && BlockedStepByStep(states, events)
    ensures BlockedThroughout(states, first, last - 1) ==> NextIsBlockedIfKept(states, events, last - 1)
  {
  }

  lemma OneMoreState(states: seq<System>, events: seq<Event>, first: nat, last: nat)
    requires first < last <= |events| && |events| < |states|
    requires BlockedAsKept(states, events, first, last - 1)
    requires BlockedStepByStep(states, events)
    ensures BlockedAsKept(states, events, first, last)
  {
    NextWhileBlocked(states, events, first, last);
    var all := AllKeepBlocked(states, events, first, last);
    assert all ==> KeepsBlocked(states[last - 1], events[last - 1]);
    assert BlockedThroughout(states, first, last) ==> Blocked(states[last]);
  }

  lemma BlockedAtFirst(states: seq<System>, events: seq<Event>, first: nat)
    requires |states| == |events| + 1 && first < |states| && Blocked(states[first])
    ensures BlockedAsKept(states, events, first, first)
  {
  }

  lemma {:induction false} BlockedAsKeptInRun(states: seq<System>, events: seq<Event>, first: nat, last: nat)
    requires |states| == |events| + 1 && first <= last < |states| && Blocked(states[first])
    requires BlockedStepByStep(states, events)
    ensures BlockedAsKept(states, events, first, last)
    decreases last
  {
    if first < last {
      BlockedAsKeptInRun(states, events, first, last - 1);
      OneMoreState(states, events, first, last);
    } else {
      BlockedAtFirst(states, events, first);
    }
  }

  /**
   With the one-to-one report column enforced, a worker whose head task already has a result stays
   blocked, and no task leaves the queue, for as long as every enqueue leaves such a head; the first
   one that does not unblocks it.
   */
  lemma StaysBlockedExactly(states: seq<System>, events: seq<Event>, first: nat, last: nat)
    requires Run(true, states, events) && first <= last < |states| && Blocked(states[first])
    ensures BlockedThroughout(states, first, last) <==> AllKeepBlocked(states, events, first, last)
    ensures BlockedThroughout(states, first, last) ==> QueuedIds(states[first].t) <= QueuedIds(states[last].t)
  {
    RunStepsStayBlocked(states, events);
    BlockedAsKeptInRun(states, events, first, last);
  }

  /** In particular a new task unblocks the queue only if it outranks the head and has no finished result. */
  lemma NewTaskKeepsBlocked(s: System, e: Event)
    requires Blocked(s) && e.Enqueue? && e.id !in s.t
    ensures Schedule(s.t, s.clock)[0] in s.t
    ensures KeepsBlocked(s, e) <==>
              e.task.priority <= s.t[Schedule(s.t, s.clock)[0]].priority || HasResult(s.t, e.task.purl)
  {
    assert s.t - {e.id} == s.t;
    assert Schedule(s.t, s.clock)[0] in Schedule(s.t, s.clock);
  }

  /** An old task that was the only one to give the head its result unblocks it whatever its priority. */
  lemma RequeuedDonorUnblocks(s: System, e: Event)
    requires Blocked(s) && e.Enqueue? && Donor(s.t, e.task.purl, e.id)
    requires s.t[Schedule(s.t, s.clock)[0]].purl == e.task.purl
    requires forall d :: d in s.t && Donor(s.t, e.task.purl, d) ==> d == e.id
    ensures !KeepsBlocked(s, e)
  {
    var rest := s.t - {e.id};
    WithoutRow(s.t, s.clock, e.id);
    SameQueueSameSchedule(s.t, rest, s.clock);
    if HasResult(rest, e.task.purl) {
      var d :| d in rest && Donor(rest, e.task.purl, d);
      assert Donor(s.t, e.task.purl, d);
    }
  }

  /** A run that ends blocked: two tasks of one purl, the first of which has been completed. */
  lemma CanBeBlocked() returns (states: seq<System>, events: seq<Event>)
    ensures Run(true, states, events) && Blocked(states[|events|])
  {
    var start := System(map[], 0, Polling);
    EnqueueOnEmpty(true, start, 1, "a", 1);
    var queued := start.(t := start.t[1 := QueuedTask("a", 1, 1)], clock := 1);
    states, events := Extend(true, [start], [], Enqueue(1, NewTask("a"), 1), queued);
    var held;
    held, states, events := PickAndStart(true, states, events, queued);
    assert QueuedIds(held.t) == {};
    EnqueueOnEmpty(true, held, 2, "a", 5);
    var waiting := held.(t := held.t[2 := QueuedTask("a", 1, 5)], clock := 5);
    states, events := Extend(true, states, events, Enqueue(2, NewTask("a"), 5), waiting);
    states, events := FinishFirst(states, events, waiting);
  }

  lemma FinishFirst(states: seq<System>, events: seq<Event>, s: System)
    returns (longer: seq<System>, more: seq<Event>)
    requires Run(true, states, events) && states[|events|] == s && s.clock == 5
    requires s.phase.Analysing? && s.phase.id == 1 && s.phase.row.status == Running && s.phase.row.purl == "a"
    requires s.t == map[1 := s.phase.row, 2 := QueuedTask("a", 1, 5)]
    ensures Run(true, longer, more) && Blocked(longer[|more|])
  {
    var row := Finished(s.phase.row, Report(7, None), 6);
    var done := System(s.t[1 := row], 6, Wrapping(1, row));
    longer, more := Extend(true, states, events, Finish(Report(7, None), 6), done);
    var polling := done.(t := Renumbered(done.t), phase := Polling);
    longer, more := Extend(true, longer, more, Renumber, polling);
    RunKeepsInv(true, longer, more, |more|);
    assert QueuedIds(polling.t) == {2} && RunningIds(polling.t) == {};
    HeadIsFirst(polling.t, 6, 2);
    assert Donor(polling.t, "a", 1);
  }
}
