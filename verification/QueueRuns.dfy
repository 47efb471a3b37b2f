/**
 Whole runs of the one queue-manager worker. Each database transaction is one
 step; other threads may enqueue between any two steps of the worker, and the
 worker keeps writing back the row it read when it picked the task.
 */
module QueueRuns {
  import opened Wrappers
  import opened Ordering
  import opened TaskTable
  import opened QueueManager

  /** Where the worker is, with the task object it holds. */
  datatype Phase =
    | Polling
    | Picked(id: TaskId, row: Task)
    | Analysing(id: TaskId, row: Task)
    | Wrapping(id: TaskId, row: Task)

  /** What a queued task waits with: its priority and enqueue time. */
  datatype Ticket = Ticket(priority: nat, queuedAt: Option<Time>)

  datatype System = System(t: Table, clock: Time, phase: Phase)

  datatype Event =
    | Enqueue(id: TaskId, task: Task, now: Time)
    | CheckTimeouts(now: Time)
    | Select(now: Time)
    | Start(now: Time)
    | Heartbeat
    | Finish(outcome: Outcome, now: Time)
    | SaveUrl(url: string)
    | Renumber
    | Interrupt

  function TicketOf(row: Task): Ticket { Ticket(row.priority, row.queuedAt) }

  function PhaseAfter(r: Selection, u: Table): Phase {
    if r.Next? && r.id in u then Picked(r.id, u[r.id]) else Polling
  }

  ghost predicate Selected(oneToOne: bool, s: System, now: Time, s': System) {
    && WellTimed(s.t, s.clock)
    && exists r, gifts ::
         Selects(oneToOne, s.t, s.clock, now, s'.t, r, gifts) && s'.phase == PhaseAfter(r, s'.t)
  }

  ghost predicate Step(oneToOne: bool, s: System, e: Event, s': System) {
    match e
    case Enqueue(id, task, now) =>
      && s.clock < now && s'.clock == now && s'.phase == s.phase
      && exists position :: IsNextPosition(s.t, position) && s'.t == Enqueued(s.t, id, task, position, now)
    case CheckTimeouts(now) =>
      s.phase.Polling? && s.clock <= now && s' == s.(t := TimeoutsHandled(s.t, now), clock := now)
    case Select(now) =>
      s.phase.Polling? && s.clock <= now && s'.clock == now && Selected(oneToOne, s, now, s')
    case Start(now) =>
      && s.phase.Picked? && s.clock <= now
      && var row := Started(s.phase.row, now);
         s' == System(s.t[s.phase.id := row], now, Analysing(s.phase.id, row))
    case Heartbeat =>
      s.phase.Analysing? && s' == s.(t := s.t[s.phase.id := s.phase.row])
    case Finish(outcome, now) =>
      && (s.phase.Analysing? || (!s.phase.Polling? && outcome.AnalysisError?)) && s.clock <= now
      && var row := Finished(s.phase.row, outcome, now);
         s' == System(s.t[s.phase.id := row], now, Wrapping(s.phase.id, row))
    case SaveUrl(url) =>
      && s.phase.Wrapping? && s.phase.row.status == Completed
      && var row := s.phase.row.(downloadUrl := Some(url));
         s' == s.(t := s.t[s.phase.id := row], phase := Wrapping(s.phase.id, row))
    case Renumber =>
      s.phase.Wrapping? && s' == s.(t := Renumbered(s.t), phase := Polling)
    case Interrupt =>
      s' == s.(phase := Polling)
  }

  // ----- the invariant -----

  /** A task with ticket `first` comes before one with ticket `second`, if they have one priority. */
  ghost predicate InTurn(first: Ticket, second: Ticket) {
    first.priority == second.priority ==> NullsLast(first.queuedAt, second.queuedAt)
  }

  /** The picked task is the oldest of its priority, although newer tasks may have come in since. */
  ghost predicate PickedOldest(s: System) {
    s.phase.Picked? ==>
      var id, row := s.phase.id, s.phase.row;
      && id in QueuedIds(s.t) && row.queuedAt.Some? && row.queuedAt.value <= s.clock
      && forall q :: q in QueuedIds(s.t) && q != id ==> InTurn(TicketOf(row), TicketOf(s.t[q]))
  }

  /** At most one row is running, and it is the worker's own once the worker holds a task. */
  ghost predicate OneRunning(s: System) {
    match s.phase
    case Polling => forall a, b :: a in RunningIds(s.t) && b in RunningIds(s.t) ==> a == b
    case Picked(_, _) => RunningIds(s.t) == {}
    case Analysing(id, row) => RunningIds(s.t) <= {id} && row.status == Running
    case Wrapping(id, row) => RunningIds(s.t) == {} && (row.status == Completed || row.status == Failed)
  }

  ghost predicate Inv(s: System) {
    WellTimed(s.t, s.clock) && WellPlaced(s.t) && PickedOldest(s) && OneRunning(s)
  }

  ghost predicate Initial(s: System) { s.t == map[] && s.phase == Polling }

  // ----- every step keeps the invariant -----

  lemma EnqueueStep(s: System, id: TaskId, task: Task, now: Time, position: int)
    requires Inv(s) && s.clock < now && IsNextPosition(s.t, position)
    ensures Inv(s.(t := Enqueued(s.t, id, task, position, now), clock := now))
  {
    var u := Enqueued(s.t, id, task, position, now);
    EnqueueKeeps(s.t, s.clock, id, task, position, now);
    assert RunningIds(u) <= RunningIds(s.t) by {
      forall x | x in RunningIds(u) ensures x in RunningIds(s.t) { assert x != id; }
    }
  }

  /** Writing back an unqueued row as the worker does. */
  lemma WriteStep(s: System, id: TaskId, row: Task, now: Time)
    requires Inv(s) && s.clock <= now && row.status != Queued
    ensures var t' := s.t[id := row];
            && WellTimed(t', now) && WellPlaced(t')
            && (forall q :: q in QueuedIds(t') <==> q in QueuedIds(s.t) && q != id)
            && RunningIds(t') == (if row.status == Running then RunningIds(s.t) + {id} else RunningIds(s.t) - {id})
  {
    WriteUnqueued(s.t, s.clock, id, row);
    LaterClock(s.t[id := row], s.clock, now);
    var t' := s.t[id := row];
    forall x ensures x in RunningIds(t') <==> if x == id then row.status == Running else x in RunningIds(s.t) { }
  }

  /** The worker writes back the row it holds. */
  lemma WorkerStep(s: System, row: Task, now: Time, s': System)
    requires Inv(s) && !s.phase.Polling? && s.clock <= now
    requires s'.t == s.t[s.phase.id := row] && s'.clock == now
    requires || (s'.phase == Analysing(s.phase.id, row) && row.status == Running && !s.phase.Wrapping?)
             || (s'.phase == Wrapping(s.phase.id, row) && (row.status == Completed || row.status == Failed))
    ensures Inv(s')
  {
    WriteStep(s, s.phase.id, row, now);
  }

  lemma TimeoutStep(s: System, now: Time)
    requires Inv(s) && s.phase.Polling? && s.clock <= now
    ensures Inv(s.(t := TimeoutsHandled(s.t, now), clock := now))
  {
    TimeoutsKeep(s.t, s.clock, now);
    LaterClock(TimeoutsHandled(s.t, now), s.clock, now);
  }

  lemma RenumberStep(s: System)
    requires Inv(s) && s.phase.Wrapping?
    ensures Inv(s.(t := Renumbered(s.t), phase := Polling))
  {
    RenumberedSpec(s.t, s.clock);
    assert RunningIds(Renumbered(s.t)) == RunningIds(s.t);
  }

  lemma SelectStep(oneToOne: bool, s: System, now: Time, s': System)
    requires Inv(s) && s.phase.Polling? && s.clock <= now && s'.clock == now && Selected(oneToOne, s, now, s')
    ensures Inv(s')
  {
    var r, gifts :| Selects(oneToOne, s.t, s.clock, now, s'.t, r, gifts)
                    && s'.phase == PhaseAfter(r, s'.t);
    LaterClock(s.t, s.clock, now);
    var sched := Schedule(s.t, s.clock);
    var k := SkipCount(QueueManagerPolicy, s.t, sched);
    if RunningIds(s.t) == {} && !(oneToOne && k > 0) {
      SelectSettles(s, now, k, gifts, s', r);
    }
  }

  lemma SettledTable(s: System, k: nat, now: Time, gifts: map<TaskId, Gift>)
    requires Inv(s) && s.clock <= now
    requires k <= |Schedule(s.t, s.clock)| && GiftsOk(QueueManagerPolicy, s.t, k, gifts)
    ensures var u := Settled(s.t, k, now, gifts);
            WellTimed(u, now) && WellPlaced(u) && Kept(s.t, u, k) && RunningIds(u) == RunningIds(s.t)
  {
    SettledSpec(QueueManagerPolicy, s.t, s.clock, k, now, gifts);
    LaterClock(Settled(s.t, k, now, gifts), s.clock, now);
  }

  lemma SelectSettles(s: System, now: Time, k: nat, gifts: map<TaskId, Gift>, s': System, r: Selection)
    requires Inv(s) && s.phase.Polling? && s.clock <= now && s'.clock == now && RunningIds(s.t) == {}
    requires k <= |Schedule(s.t, s.clock)| && GiftsOk(QueueManagerPolicy, s.t, k, gifts)
    requires s'.t == Settled(s.t, k, now, gifts)
    requires r == if k < |Schedule(s.t, s.clock)| then Next(Schedule(s.t, s.clock)[k]) else NoTask
    requires s'.phase == PhaseAfter(r, s'.t)
    ensures Inv(s')
  {
    SettledTable(s, k, now, gifts);
    if k < |Schedule(s.t, s.clock)| {
      PickedIsOldest(s, k, s'.t);
    }
  }

  /** The task after the first k is the oldest of its priority among the rest. */
  lemma PickedIsOldest(s: System, k: nat, u: Table)
    requires Inv(s) && k < |Schedule(s.t, s.clock)| && Kept(s.t, u, k)
    ensures var id := Schedule(s.t, s.clock)[k];
            && id in QueuedIds(u) && u[id].queuedAt.Some? && u[id].queuedAt.value <= s.clock
            && forall q :: q in QueuedIds(u) && q != id ==> InTurn(TicketOf(u[id]), TicketOf(u[q]))
  {
    var id := Schedule(s.t, s.clock)[k];
    RankAt(s.t, s.clock, k);
    forall q | q in QueuedIds(u) && q != id ensures InTurn(TicketOf(u[id]), TicketOf(u[q])) {
      RanksOrder(s.t, s.clock, id, q);
    }
  }

  /** Every step keeps the invariant. */
  lemma StepKeepsInv(oneToOne: bool, s: System, e: Event, s': System)
    requires Inv(s) && Step(oneToOne, s, e, s')
    ensures Inv(s')
  {
    match e
    case Enqueue(id, task, now) =>
      var position :| IsNextPosition(s.t, position) && s'.t == Enqueued(s.t, id, task, position, now);
      EnqueueStep(s, id, task, now, position);
    case CheckTimeouts(now) =>
      TimeoutStep(s, now);
    case Select(now) =>
      SelectStep(oneToOne, s, now, s');
    case Start(now) =>
      WorkerStep(s, s'.phase.row, now, s');
    case Heartbeat =>
      WorkerStep(s, s.phase.row, s.clock, s');
    case Finish(outcome, now) =>
      WorkerStep(s, s'.phase.row, now, s');
    case SaveUrl(url) =>
      WorkerStep(s, s'.phase.row, s.clock, s');
    case Renumber =>
      RenumberStep(s);
    case Interrupt =>
  }

  // ----- what the worker writes, field by field -----

  /** Starting a task makes its row running, from now. */
  lemma StartWrites(oneToOne: bool, s: System, now: Time, s': System)
    requires Step(oneToOne, s, Start(now), s')
    ensures var id, row := s.phase.id, s.phase.row;
            && s'.phase == Analysing(id, row.(status := Running, startedAt := Some(now), queuePosition := None))
            && s'.t == s.t[id := s'.phase.row]
  {
  }

  /** Finishing it makes the row failed exactly if the outcome is an error, and else completed with the report. */
  lemma FinishWrites(oneToOne: bool, s: System, outcome: Outcome, now: Time, s': System)
    requires Step(oneToOne, s, Finish(outcome, now), s')
    ensures var id, row := s.phase.id, s.phase.row;
            && s'.phase.Wrapping? && s'.phase.id == id && s'.t == s.t[id := s'.phase.row]
            && (s'.t[id].status == Failed <==> outcome.AnalysisError?)
            && s'.phase.row
               == match outcome
                  case Report(report, _) =>
                    row.(status := Completed, completedAt := Some(now), report := Some(report))
                  case AnalysisError =>
                    row.(status := Failed, completedAt := Some(now), queuePosition := None)
  {
  }

  // ----- whole runs -----

  ghost predicate Run(oneToOne: bool, states: seq<System>, events: seq<Event>) {
    && |states| == |events| + 1
    && Initial(states[0])
    && forall i :: 0 <= i < |events| ==> Step(oneToOne, states[i], events[i], states[i + 1])
  }

  lemma {:induction false} RunKeepsInv(oneToOne: bool, states: seq<System>, events: seq<Event>, n: nat)
    requires Run(oneToOne, states, events) && n < |states|
    ensures Inv(states[n])
  {
    if n > 0 {
      RunKeepsInv(oneToOne, states, events, n - 1);
      StepKeepsInv(oneToOne, states[n - 1], events[n - 1], states[n]);
    }
  }

  /**
   In every reachable state at most one task is running, the queued rows hold distinct positive
   positions in enqueue order within each priority, and the two schedulers agree on the head.
   */
  lemma ReachableStates(oneToOne: bool, states: seq<System>, events: seq<Event>, n: nat)
    requires Run(oneToOne, states, events) && n < |states|
    ensures forall a, b :: a in RunningIds(states[n].t) && b in RunningIds(states[n].t) ==> a == b
    ensures WellTimed(states[n].t, states[n].clock) && WellPlaced(states[n].t)
    ensures forall h :: IsLeast(ByPosition(states[n].t), QueuedIds(states[n].t), h)
                        <==> IsLeast(ByTime(states[n].t), QueuedIds(states[n].t), h)
  {
    RunKeepsInv(oneToOne, states, events, n);
    KeysAgree(states[n].t, states[n].clock);
  }

  // ----- the order in which tasks leave the queue -----

  ghost predicate Leaves(s: System, s': System, a: TaskId) { a in QueuedIds(s.t) && a !in QueuedIds(s'.t) }

  /** How many tasks at the front of the schedule a selection settles. */
  ghost function SettledCount(oneToOne: bool, s: System): nat
    requires WellTimed(s.t, s.clock)
  {
    if RunningIds(s.t) != {} || oneToOne then 0 else SkipCount(QueueManagerPolicy, s.t, Schedule(s.t, s.clock))
  }

  /** Tasks leave the queue exactly by being settled in a selection, or by the worker's saving of its row. */
  lemma LeavesExactly(oneToOne: bool, s: System, e: Event, s': System, a: TaskId)
    requires Inv(s) && Step(oneToOne, s, e, s')
    ensures Leaves(s, s', a) <==>
            a in QueuedIds(s.t)
            && ((WritesBack(e) && a == s.phase.id) || (e.Select? && Rank(s.t, a) < SettledCount(oneToOne, s)))
  {
    match e
    case Enqueue(id, task, now) =>
    case CheckTimeouts(now) =>
      TimeoutsKeep(s.t, s.clock, now);
    case Select(now) =>
      if a in QueuedIds(s.t) { SelectLeaves(oneToOne, s, now, s', a); }
    case Renumber =>
      RenumberedSpec(s.t, s.clock);
    case _ =>
  }

  lemma SelectLeaves(oneToOne: bool, s: System, now: Time, s': System, a: TaskId)
    requires Inv(s) && Selected(oneToOne, s, now, s') && a in QueuedIds(s.t)
    ensures Leaves(s, s', a) <==> Rank(s.t, a) < SettledCount(oneToOne, s)
  {
    var r, gifts :| Selects(oneToOne, s.t, s.clock, now, s'.t, r, gifts) && s'.phase == PhaseAfter(r, s'.t);
    var k := SkipCount(QueueManagerPolicy, s.t, Schedule(s.t, s.clock));
    if RunningIds(s.t) == {} && !(oneToOne && k > 0) {
      SettledSpec(QueueManagerPolicy, s.t, s.clock, k, now, gifts);
    }
  }

  /** What leaves the queue in this step was enqueued before all of its priority that stay. */
  ghost predicate StepInOrder(s: System, s': System) {
    forall a, b :: Leaves(s, s', a) && b in QueuedIds(s'.t) ==> InTurn(TicketOf(s.t[a]), TicketOf(s'.t[b]))
  }

  /** The worker saves the task object it holds. */
  predicate WritesBack(e: Event) { e.Start? || e.Heartbeat? || e.Finish? || e.SaveUrl? }

  /** The row of the task the worker holds has been put on the queue again since it was picked. */
  ghost predicate Requeued(s: System) {
    match s.phase
    case Polling => false
    case Picked(id, row) => id in QueuedIds(s.t) && TicketOf(s.t[id]) != TicketOf(row)
    case Analysing(id, _) => id in QueuedIds(s.t)
    case Wrapping(id, _) => id in QueuedIds(s.t)
  }

  ghost predicate OlderThan(t: Table, b: TaskId, id: TaskId) {
    b in QueuedIds(t) && id in t && t[b].priority == t[id].priority && NullsLast(t[b].queuedAt, t[id].queuedAt)
  }

  /** The stale save takes the row off the queue ahead of an older one of its priority. */
  ghost predicate Jumps(s: System, e: Event) {
    WritesBack(e) && Requeued(s) && exists b :: b in QueuedIds(s.t) && OlderThan(s.t, b, s.phase.id)
  }

  /** A step takes tasks off the queue out of turn exactly if it is such a save. */
  lemma StepInOrderExactly(oneToOne: bool, s: System, e: Event, s': System)
    requires Inv(s) && Step(oneToOne, s, e, s')
    ensures StepInOrder(s, s') <==> !Jumps(s, e)
  {
    match e
    case Enqueue(id, task, now) =>
    case CheckTimeouts(now) =>
      TimeoutsKeep(s.t, s.clock, now);
    case Select(now) =>
      SelectInOrder(oneToOne, s, now, s');
    case Start(now) =>
      WriteInOrder(s, s'.phase.row, e, s');
    case Heartbeat =>
      WriteInOrder(s, s.phase.row, e, s');
    case Finish(outcome, now) =>
      WriteInOrder(s, s'.phase.row, e, s');
    case SaveUrl(url) =>
      WriteInOrder(s, s'.phase.row, e, s');
    case Renumber =>
      RenumberedSpec(s.t, s.clock);
    case Interrupt =>
  }

  lemma WriteInOrder(s: System, row: Task, e: Event, s': System)
    requires Inv(s) && !s.phase.Polling? && WritesBack(e)
    requires row.status != Queued && s'.t == s.t[s.phase.id := row]
    ensures StepInOrder(s, s') <==> !Jumps(s, e)
  {
    var id := s.phase.id;
    WriteUnqueued(s.t, s.clock, id, row);
    assert forall a :: Leaves(s, s', a) <==> a == id && id in QueuedIds(s.t);
    if id in QueuedIds(s.t) && (s.phase.Picked? ==> Requeued(s)) {
      forall b | b in QueuedIds(s.t) && b != id
        ensures InTurn(TicketOf(s.t[id]), TicketOf(s.t[b])) <==> !OlderThan(s.t, b, id)
      {
        assert s.t[b].queuedAt != s.t[id].queuedAt;
      }
      assert Requeued(s) && !OlderThan(s.t, id, id);
      if StepInOrder(s, s') {
        forall b | b in QueuedIds(s.t) && b != id ensures !OlderThan(s.t, b, id) {
          assert Leaves(s, s', id) && b in QueuedIds(s'.t);
          assert InTurn(TicketOf(s.t[id]), TicketOf(s'.t[b]));
        }
      }
    }
  }

  lemma SelectInOrder(oneToOne: bool, s: System, now: Time, s': System)
    requires Inv(s) && s.phase.Polling? && Selected(oneToOne, s, now, s')
    ensures StepInOrder(s, s')
  {
    var r, gifts :| Selects(oneToOne, s.t, s.clock, now, s'.t, r, gifts) && s'.phase == PhaseAfter(r, s'.t);
    var k := SkipCount(QueueManagerPolicy, s.t, Schedule(s.t, s.clock));
    if s'.t != s.t {
      SettledSpec(QueueManagerPolicy, s.t, s.clock, k, now, gifts);
      forall a, b | Leaves(s, s', a) && b in QueuedIds(s'.t) ensures InTurn(TicketOf(s.t[a]), TicketOf(s'.t[b])) {
        RanksOrder(s.t, s.clock, a, b);
      }
    }
  }

  /** The task that leaves in step i was enqueued before b, if b is queued at the later state j with its priority. */
  ghost predicate PairInOrder(states: seq<System>, i: nat, j: nat, a: TaskId, b: TaskId)
    requires i < j < |states|
  {
    Leaves(states[i], states[i + 1], a) && b in QueuedIds(states[j].t) ==>
      InTurn(TicketOf(states[i].t[a]), TicketOf(states[j].t[b]))
  }

  /** Every task that leaves the queue was enqueued before all of its priority that are queued later on. */
  ghost predicate LeaveInOrder(states: seq<System>) {
    forall i, j, a, b :: 0 <= i < j < |states| ==> PairInOrder(states, i, j, a, b)
  }

  /**
   Over a whole run, tasks of equal priority leave the queue in the order in which they were
   enqueued, exactly if the worker never saves a stale row over an enqueued one that is not the
   oldest of its priority.
   */
  lemma EqualPrioritiesLeaveInOrder(oneToOne: bool, states: seq<System>, events: seq<Event>)
    requires Run(oneToOne, states, events)
    ensures LeaveInOrder(states) <==> forall k :: 0 <= k < |events| ==> !Jumps(states[k], events[k])
  {
    forall k | 0 <= k < |events| ensures StepInOrder(states[k], states[k + 1]) <==> !Jumps(states[k], events[k]) {
      RunKeepsInv(oneToOne, states, events, k);
      StepInOrderExactly(oneToOne, states[k], events[k], states[k + 1]);
    }
    if forall k :: 0 <= k < |events| ==> !Jumps(states[k], events[k]) {
      forall i, j, a, b | 0 <= i < j < |states| ensures PairInOrder(states, i, j, a, b) {
        assert !Jumps(states[i], events[i]);
        LaterInOrder(oneToOne, states, events, i, j, a, b);
      }
    } else {
      var k :| 0 <= k < |events| && Jumps(states[k], events[k]);
      var a, b :| Leaves(states[k], states[k + 1], a) && b in QueuedIds(states[k + 1].t)
                  && !InTurn(TicketOf(states[k].t[a]), TicketOf(states[k + 1].t[b]));
      assert !PairInOrder(states, k, k + 1, a, b);
    }
  }

  lemma LaterInOrder(oneToOne: bool, states: seq<System>, events: seq<Event>, i: nat, j: nat, a: TaskId, b: TaskId)
    requires Run(oneToOne, states, events) && i < j < |states| && StepInOrder(states[i], states[i + 1])
    ensures PairInOrder(states, i, j, a, b)
  {
    RunKeepsInv(oneToOne, states, events, i);
    if Leaves(states[i], states[i + 1], a) && b in QueuedIds(states[j].t) {
      QueuedSince(oneToOne, states, events, i + 1, j, b);
      ClockRuns(oneToOne, states, events, i, i + 1);
    }
  }

  lemma StepQueues(oneToOne: bool, s: System, e: Event, s': System, b: TaskId)
    requires Inv(s) && Step(oneToOne, s, e, s') && b in QueuedIds(s'.t)
    ensures (b in QueuedIds(s.t) && TicketOf(s'.t[b]) == TicketOf(s.t[b]))
            || (s'.t[b].queuedAt.Some? && s'.t[b].queuedAt.value > s.clock)
    ensures s.clock <= s'.clock
  {
    match e
    case Enqueue(id, task, now) =>
    case CheckTimeouts(now) =>
      TimeoutsKeep(s.t, s.clock, now);
    case Select(now) =>
      var r, gifts :| Selects(oneToOne, s.t, s.clock, now, s'.t, r, gifts) && s'.phase == PhaseAfter(r, s'.t);
      if s'.t != s.t {
        SettledSpec(QueueManagerPolicy, s.t, s.clock, SkipCount(QueueManagerPolicy, s.t, Schedule(s.t, s.clock)), now,
                    gifts);
      }
    case Start(now) =>
    case Heartbeat =>
    case Finish(outcome, now) =>
    case SaveUrl(url) =>
    case Renumber =>
      RenumberedSpec(s.t, s.clock);
    case Interrupt =>
  }

  lemma {:induction false} ClockRuns(oneToOne: bool, states: seq<System>, events: seq<Event>, m: nat, n: nat)
    requires Run(oneToOne, states, events) && m <= n < |states|
    ensures states[m].clock <= states[n].clock
    decreases n
  {
    if m < n {
      ClockRuns(oneToOne, states, events, m, n - 1);
      assert Step(oneToOne, states[n - 1], events[n - 1], states[n]);
    }
  }

  lemma QueuedStep(oneToOne: bool, states: seq<System>, events: seq<Event>, n: nat, b: TaskId)
    requires Run(oneToOne, states, events) && n < |events| && b in QueuedIds(states[n + 1].t)
    ensures (b in QueuedIds(states[n].t) && TicketOf(states[n + 1].t[b]) == TicketOf(states[n].t[b]))
            || (states[n + 1].t[b].queuedAt.Some? && states[n + 1].t[b].queuedAt.value > states[n].clock)
  {
    RunKeepsInv(oneToOne, states, events, n);
    StepQueues(oneToOne, states[n], events[n], states[n + 1], b);
  }

  /** What is queued at state n was queued at state m already, with the same ticket, or has come in since. */
  lemma {:induction false} QueuedSince(oneToOne: bool, states: seq<System>, events: seq<Event>, m: nat, n: nat,
                                       b: TaskId)
    requires Run(oneToOne, states, events) && m <= n < |states| && b in QueuedIds(states[n].t)
    ensures (b in QueuedIds(states[m].t) && TicketOf(states[n].t[b]) == TicketOf(states[m].t[b]))
            || (states[n].t[b].queuedAt.Some? && states[n].t[b].queuedAt.value > states[m].clock)
    decreases n
  {
    if m < n {
      QueuedStep(oneToOne, states, events, n - 1, b);
      ClockRuns(oneToOne, states, events, m, n - 1);
      if b in QueuedIds(states[n - 1].t) {
        QueuedSince(oneToOne, states, events, m, n - 1, b);
      }
    }
  }

  /** An enqueue that names the task the worker holds. */
  predicate NamesHeld(s: System, e: Event) { e.Enqueue? && !s.phase.Polling? && e.id == s.phase.id }

  /** The held row comes to be queued again exactly by an enqueue that names it. */
  lemma RequeuedExactly(oneToOne: bool, s: System, e: Event, s': System)
    requires Inv(s) && Step(oneToOne, s, e, s') && !Requeued(s)
    ensures Requeued(s') <==> NamesHeld(s, e)
  {
  }

  lemma RequeuedStep(oneToOne: bool, states: seq<System>, events: seq<Event>, n: nat)
    requires Run(oneToOne, states, events) && n < |events| && !Requeued(states[n]) && !NamesHeld(states[n], events[n])
    ensures !Requeued(states[n + 1])
  {
    RunKeepsInv(oneToOne, states, events, n);
    RequeuedExactly(oneToOne, states[n], events[n], states[n + 1]);
  }

  lemma {:induction false} NeverRequeued(oneToOne: bool, states: seq<System>, events: seq<Event>, n: nat)
    requires Run(oneToOne, states, events) && n < |states|
    requires forall k :: 0 <= k < |events| ==> !NamesHeld(states[k], events[k])
    ensures !Requeued(states[n])
  {
    if n > 0 {
      NeverRequeued(oneToOne, states, events, n - 1);
      RequeuedStep(oneToOne, states, events, n - 1);
    }
  }

  /** If no enqueue ever names the task the worker holds, equal priorities leave in order. */
  lemma CarefulEnqueuesKeepOrder(oneToOne: bool, states: seq<System>, events: seq<Event>)
    requires Run(oneToOne, states, events)
    requires forall k :: 0 <= k < |events| ==> !NamesHeld(states[k], events[k])
    ensures LeaveInOrder(states)
  {
    forall k | 0 <= k < |events| ensures !Jumps(states[k], events[k]) {
      NeverRequeued(oneToOne, states, events, k);
    }
    EqualPrioritiesLeaveInOrder(oneToOne, states, events);
  }

  /** Selecting when nothing runs and the head has no finished result picks the head. */
  lemma SelectPicksHead(oneToOne: bool, s: System, now: Time, h: TaskId)
    requires WellTimed(s.t, s.clock) && s.phase.Polling? && s.clock <= now && RunningIds(s.t) == {}
    requires IsLeast(ByTime(s.t), QueuedIds(s.t), h) && !HasResult(s.t, s.t[h].purl)
    ensures Step(oneToOne, s, Select(now), System(s.t, now, Picked(h, s.t[h])))
  {
    AdvancesAtOnce(QueueManagerPolicy, s.t, s.clock, now, h);
    HeadIsFirst(s.t, s.clock, h);
    assert Selects(oneToOne, s.t, s.clock, now, s.t, Next(h), map[]);
    assert PhaseAfter(Next(h), s.t) == Picked(h, s.t[h]);
  }

  function NewTask(purl: string): Task {
    Task(purl, Pending, 0, None, None, None, None, 0, None, None)
  }

  function QueuedTask(purl: string, position: int, now: Time): Task {
    NewTask(purl).(status := Queued, queuePosition := Some(position), queuedAt := Some(now))
  }

  /** Enqueueing a new task on a table whose queue is empty. */
  lemma EnqueueOnEmpty(oneToOne: bool, s: System, id: TaskId, purl: string, now: Time)
    requires QueuedIds(s.t) == {} && s.clock < now
    ensures Step(oneToOne, s, Enqueue(id, NewTask(purl), now),
                 s.(t := s.t[id := QueuedTask(purl, 1, now)], clock := now))
  {
    assert IsNextPosition(s.t, 1);
    assert s.t[id := QueuedTask(purl, 1, now)] == Enqueued(s.t, id, NewTask(purl), 1, now);
  }

  /** Enqueueing a task behind the only queued one. */
  lemma EnqueueBehind(oneToOne: bool, s: System, first: TaskId, id: TaskId, purl: string, now: Time)
    requires QueuedIds(s.t) == {first} && s.t[first].queuePosition == Some(1) && s.clock < now
    ensures Step(oneToOne, s, Enqueue(id, NewTask(purl), now),
                 s.(t := s.t[id := QueuedTask(purl, 2, now)], clock := now))
  {
    assert first in QueuedIds(s.t) && s.t[first].queuePosition == Some(2 - 1);
    assert IsNextPosition(s.t, 2);
    assert s.t[id := QueuedTask(purl, 2, now)] == Enqueued(s.t, id, NewTask(purl), 2, now);
  }

  /**
   A run in which task 1 is enqueued again while it is being analysed: the heartbeat then takes it off
   the queue although task 2, of the same priority, has been waiting for longer.
   */
  lemma EnqueueOfHeldTaskBreaksOrder(oneToOne: bool) returns (states: seq<System>, events: seq<Event>)
    ensures Run(oneToOne, states, events) && !LeaveInOrder(states)
  {
    var start := System(map[], 0, Polling);
    EnqueueOnEmpty(oneToOne, start, 1, "a", 1);
    var queued := start.(t := start.t[1 := QueuedTask("a", 1, 1)], clock := 1);
    states, events := Extend(oneToOne, [start], [], Enqueue(1, NewTask("a"), 1), queued);
    var held;
    held, states, events := PickAndStart(oneToOne, states, events, queued);
    states, events := RequeueHeld(oneToOne, states, events, held);
    assert !PairInOrder(states, |events| - 1, |events|, 1, 2);
  }

  /** A run and one step more. */
  lemma Extend(oneToOne: bool, states: seq<System>, events: seq<Event>, e: Event, s: System)
    returns (longer: seq<System>, more: seq<Event>)
    requires Run(oneToOne, states, events) && Step(oneToOne, states[|events|], e, s)
    ensures longer == states + [s] && more == events + [e] && Run(oneToOne, longer, more)
  {
    longer, more := states + [s], events + [e];
    forall i | 0 <= i < |more| ensures Step(oneToOne, longer[i], more[i], longer[i + 1]) {
      if i < |events| {
        assert longer[i] == states[i] && more[i] == events[i] && longer[i + 1] == states[i + 1];
      }
    }
  }

  /** The one queued task is picked and its analysis begins. */
  lemma PickAndStart(oneToOne: bool, states: seq<System>, events: seq<Event>, s: System)
    returns (held: System, longer: seq<System>, more: seq<Event>)
    requires Run(oneToOne, states, events) && states[|events|] == s && s.phase.Polling?
    requires s.clock == 1 && s.t == map[1 := QueuedTask("a", 1, 1)]
    ensures Run(oneToOne, longer, more) && longer[|more|] == held
    ensures var row := Started(QueuedTask("a", 1, 1), 3); held == System(map[1 := row], 3, Analysing(1, row))
  {
    assert QueuedIds(s.t) == {1} && RunningIds(s.t) == {} && !HasResult(s.t, "a");
    SelectPicksHead(oneToOne, s, 2, 1);
    var picked := System(s.t, 2, Picked(1, s.t[1]));
    longer, more := Extend(oneToOne, states, events, Select(2), picked);
    var row := Started(QueuedTask("a", 1, 1), 3);
    held := System(picked.t[1 := row], 3, Analysing(1, row));
    longer, more := Extend(oneToOne, longer, more, Start(3), held);
    assert held.t == map[1 := row];
  }

  /** Task 2 comes in, then task 1 again, and the heartbeat follows. */
  lemma RequeueHeld(oneToOne: bool, states: seq<System>, events: seq<Event>, s: System)
    returns (longer: seq<System>, more: seq<Event>)
    requires Run(oneToOne, states, events) && states[|events|] == s && s.clock == 3
    requires s.phase.Analysing? && s.phase.id == 1 && s.t == map[1 := s.phase.row] && s.phase.row.status == Running
    ensures Run(oneToOne, longer, more) && |more| == |events| + 3
    ensures longer[|more| - 1].t[1 := s.phase.row] == longer[|more|].t
    ensures longer[|more| - 1].t == map[1 := QueuedTask("a", 2, 6), 2 := QueuedTask("b", 1, 5)]
  {
    assert QueuedIds(s.t) == {};
    EnqueueOnEmpty(oneToOne, s, 2, "b", 5);
    var second := s.(t := s.t[2 := QueuedTask("b", 1, 5)], clock := 5);
    longer, more := Extend(oneToOne, states, events, Enqueue(2, NewTask("b"), 5), second);
    assert QueuedIds(second.t) == {2};
    EnqueueBehind(oneToOne, second, 2, 1, "a", 6);
    var again := second.(t := second.t[1 := QueuedTask("a", 2, 6)], clock := 6);
    longer, more := Extend(oneToOne, longer, more, Enqueue(1, NewTask("a"), 6), again);
    longer, more := Extend(oneToOne, longer, more, Heartbeat, again.(t := again.t[1 := s.phase.row]));
    assert again.t == map[1 := QueuedTask("a", 2, 6), 2 := QueuedTask("b", 1, 5)];
  }

  // ----- ranks -----

  /** id waits in the queue across the step, without being enqueued anew. */
  ghost predicate Waits(s: System, s': System, id: TaskId) {
    id in QueuedIds(s.t) && id in QueuedIds(s'.t) && TicketOf(s.t[id]) == TicketOf(s'.t[id])
  }

  ghost predicate Overtakes(e: Event, s: System, id: TaskId) {
    e.Enqueue? && id in s.t && e.task.priority > s.t[id].priority
  }

  /** Only the arrival of a task of strictly higher priority can put anything ahead of a waiting task. */
  lemma StepRank(oneToOne: bool, s: System, e: Event, s': System, id: TaskId)
    requires Inv(s) && Step(oneToOne, s, e, s') && Waits(s, s', id)
    ensures Ahead(s'.t, id) <= Ahead(s.t, id) + (if Overtakes(e, s, id) then {e.id} else {})
  {
    match e
    case Enqueue(x, task, now) =>
      var position :| IsNextPosition(s.t, position) && s'.t == Enqueued(s.t, x, task, position, now);
      EnqueueKeeps(s.t, s.clock, x, task, position, now);
      assert id != x;
    case CheckTimeouts(now) =>
      TimeoutsKeep(s.t, s.clock, now);
    case Select(now) =>
      var r, gifts :| Selects(oneToOne, s.t, s.clock, now, s'.t, r, gifts)
                      && s'.phase == PhaseAfter(r, s'.t);
      var k := SkipCount(QueueManagerPolicy, s.t, Schedule(s.t, s.clock));
      if s'.t != s.t {
        SettledSpec(QueueManagerPolicy, s.t, s.clock, k, now, gifts);
      }
    case Start(now) =>
      WriteUnqueued(s.t, s.clock, s.phase.id, s'.phase.row);
    case Heartbeat =>
      WriteUnqueued(s.t, s.clock, s.phase.id, s.phase.row);
    case Finish(outcome, now) =>
      WriteUnqueued(s.t, s.clock, s.phase.id, s'.phase.row);
    case SaveUrl(url) =>
      WriteUnqueued(s.t, s.clock, s.phase.id, s'.phase.row);
    case Renumber =>
      SameQueueSameSchedule(s.t, s'.t, s.clock);
    case Interrupt =>
  }

  ghost predicate UndisturbedBetween(states: seq<System>, events: seq<Event>, first: nat, last: nat, id: TaskId)
    requires first <= last <= |events| < |states|
  {
    forall i :: first <= i < last ==> Waits(states[i], states[i + 1], id) && !Overtakes(events[i], states[i], id)
  }

  lemma UndisturbedStep(oneToOne: bool, states: seq<System>, events: seq<Event>, n: nat, id: TaskId)
    requires Run(oneToOne, states, events) && n < |events|
    requires Waits(states[n], states[n + 1], id) && !Overtakes(events[n], states[n], id)
    ensures Ahead(states[n + 1].t, id) <= Ahead(states[n].t, id)
  {
    RunKeepsInv(oneToOne, states, events, n);
    StepRank(oneToOne, states[n], events[n], states[n + 1], id);
  }

  lemma {:induction false} Shrinking(states: seq<System>, first: nat, last: nat, id: TaskId)
    requires first <= last < |states|
    requires forall i :: first <= i < last ==> Ahead(states[i + 1].t, id) <= Ahead(states[i].t, id)
    ensures Ahead(states[last].t, id) <= Ahead(states[first].t, id)
    decreases last
  {
    if first < last {
      Shrinking(states, first, last - 1, id);
      assert Ahead(states[last - 1 + 1].t, id) <= Ahead(states[last - 1].t, id);
    }
  }

  /** A waiting task's rank never grows over a stretch in which no task of higher priority arrives. */
  lemma RankNeverGrows(oneToOne: bool, states: seq<System>, events: seq<Event>, first: nat, last: nat, id: TaskId)
    requires Run(oneToOne, states, events) && first <= last < |states|
    requires UndisturbedBetween(states, events, first, last, id)
    ensures Ahead(states[last].t, id) <= Ahead(states[first].t, id)
    ensures Rank(states[last].t, id) <= Rank(states[first].t, id)
  {
    forall i | first <= i < last ensures Ahead(states[i + 1].t, id) <= Ahead(states[i].t, id) {
      UndisturbedStep(oneToOne, states, events, i, id);
    }
    Shrinking(states, first, last, id);
    SubsetSize(Ahead(states[last].t, id), Ahead(states[first].t, id));
  }

  lemma SubsetSize(a: set<TaskId>, b: set<TaskId>)
    requires a <= b
    ensures |a| <= |b|
  {
    assert |b| == |a| + |b - a|;
  }
}
