/**
 The queue manager: enqueueing, selection of the next task with reuse of
 finished results, processing and timeouts.
 */
module QueueManager {
  import opened Wrappers
  import opened Ordering
  import opened TaskTable
  import opened TaskRows
  import opened TaskStore

  datatype Selection = Next(id: TaskId) | NoTask | Aborted

  /** What running the analysis of a task came to. */
  datatype Outcome = Report(report: ReportId, downloadUrl: Option<string>) | AnalysisError

  /** The position after the last queued one. */
  ghost predicate IsNextPosition(t: Table, position: int) {
    && position > 0
    && (forall q :: q in QueuedIds(t) ==> t[q].queuePosition.Some? && t[q].queuePosition.value < position)
    && (position == 1 || exists q :: q in QueuedIds(t) && t[q].queuePosition == Some(position - 1))
  }

  function Enqueued(t: Table, id: TaskId, task: Task, position: int, now: Time): Table {
    t[id := task.(status := Queued, queuePosition := Some(position), queuedAt := Some(now))]
  }

  /** The table after the pass over the running tasks. */
  ghost function TimeoutsHandled(t: Table, now: Time): Table { Handled(t, TimedOutIds(t, now), now) }

  ghost function Handled(t: Table, ids: set<TaskId>, now: Time): Table {
    if ids == {} then t else Renumbered(FailAll(t, ids, now))
  }

  function Started(task: Task, now: Time): Task {
    task.(status := Running, startedAt := Some(now), queuePosition := None)
  }

  function Finished(task: Task, outcome: Outcome, now: Time): Task {
    match outcome
    case Report(report, _) => task.(status := Completed, completedAt := Some(now), report := Some(report))
    case AnalysisError => Fail(task, now)
  }

  /** The row a processed task ends up as. */
  function Processed(task: Task, outcome: Outcome, started: Time, now: Time): Task {
    var row := Finished(Started(task, started), outcome, now);
    if outcome.Report? && outcome.downloadUrl.Some? then row.(downloadUrl := outcome.downloadUrl) else row
  }

  /**
   What selection does to table t: nothing while a task runs; otherwise the tasks at the front
   of the schedule that already have a result are settled and the first that has none is next.
   Under the unique report constraint the first such reuse fails and rolls the whole step back.
   */
  ghost predicate Selects(oneToOne: bool, t: Table, clock: Time, now: Time, u: Table, r: Selection,
                          gifts: map<TaskId, Gift>)
    requires WellTimed(t, clock)
  {
    if RunningIds(t) != {} then
      r == NoTask && u == t
    else if oneToOne && SkipCount(QueueManagerPolicy, t, Schedule(t, clock)) > 0 then
      r == Aborted && u == t
    else
      r != Aborted && Advances(QueueManagerPolicy, t, clock, now, u, if r.Next? then Some(r.id) else None, gifts)
  }

  // ----- what the operations write, field by field -----

  /**
   What selection leaves: nothing changes while a task runs; under the unique report constraint it
   aborts, changing nothing, exactly if the first task to be served has a finished result; otherwise
   the queue is worked off up to the task returned.
   */
  ghost predicate SelectionOf(oneToOne: bool, t: Table, now: Time, u: Table, r: Selection) {
    if exists x :: x in t && t[x].status == Running then r == NoTask && u == t
    else if oneToOne && HeadReusable(QueueManagerPolicy, t) then r == Aborted && u == t
    else r != Aborted && WorkedOff(QueueManagerPolicy, t, now, u, if r.Next? then Some(r.id) else None) && MovedUp(t, u)
  }

  lemma SelectsMeans(oneToOne: bool, t: Table, clock: Time, now: Time, u: Table, r: Selection,
                     gifts: map<TaskId, Gift>)
    requires WellTimed(t, clock) && Selects(oneToOne, t, clock, now, u, r, gifts)
    ensures SelectionOf(oneToOne, t, now, u, r)
  {
    SomeRunning(t);
    SkipsExactly(QueueManagerPolicy, t, clock);
    if RunningIds(t) == {} && !(oneToOne && HeadReusable(QueueManagerPolicy, t)) {
      var next := if r.Next? then Some(r.id) else None;
      AdvancesWorksOff(QueueManagerPolicy, t, clock, now, u, next, gifts);
      AdvancesMovesUp(QueueManagerPolicy, t, clock, now, u, next, gifts);
    }
  }

  /** The overdue rows have failed; if there are any, the queued rows are renumbered. */
  ghost predicate TimeoutsOf(t: Table, now: Time, u: Table) {
    && u.Keys == t.Keys
    && (forall id :: id in t && t[id].status != Queued ==>
          u[id] == if Overdue(t[id], now)
                   then t[id].(status := Failed, completedAt := Some(now), queuePosition := None) else t[id])
    && (forall id :: id in t && t[id].status == Queued ==> OnlyMoved(t[id], u[id]))
    && ((forall id :: id in t ==> !Overdue(t[id], now)) ==> u == t)
  }

  lemma TimeoutsMean(t: Table, clock: Time, now: Time)
    requires WellTimed(t, clock)
    ensures TimeoutsOf(t, now, TimeoutsHandled(t, now))
  {
    TimeoutsFailOverdue(t, now);
    if TimedOutIds(t, now) != {} {
      TimedOutAreRunning(t, now);
      RunningRowsFail(t, clock, TimedOutIds(t, now), now);
      RenumberedSpec(FailAll(t, TimedOutIds(t, now), now), clock);
    }
  }

  /** The row of a processed task: failed exactly if the analysis came to an error, else with its report. */
  ghost predicate ProcessedAs(was: Task, outcome: Outcome, started: Time, now: Time, row: Task) {
    && (row.status == Failed <==> outcome.AnalysisError?)
    && (outcome.Report? ==>
          && row.status == Completed && row.report == Some(outcome.report)
          && row.downloadUrl == if outcome.downloadUrl.Some? then outcome.downloadUrl else was.downloadUrl)
    && (outcome.AnalysisError? ==> row.report == was.report && row.downloadUrl == was.downloadUrl)
    && row.startedAt == Some(started) && row.completedAt == Some(now) && row.queuePosition == None
    && row.purl == was.purl && row.priority == was.priority && row.queuedAt == was.queuedAt
    && row.timeoutMinutes == was.timeoutMinutes
  }

  lemma ProcessedMeans(was: Task, outcome: Outcome, started: Time, now: Time)
    ensures ProcessedAs(was, outcome, started, now, Processed(was, outcome, started, now))
  {
  }

  // ----- what the operations keep -----

  /** Enqueueing at the next position keeps the table in order; only lower or equal ranks can be passed. */
  lemma EnqueueKeeps(t: Table, clock: Time, id: TaskId, task: Task, position: int, now: Time)
    requires WellTimed(t, clock) && WellPlaced(t) && clock < now && IsNextPosition(t, position)
    ensures var u := Enqueued(t, id, task, position, now);
            && WellTimed(u, now) && WellPlaced(u)
            && QueuedIds(u) == QueuedIds(t) + {id}
            && (forall x :: x in QueuedIds(t) && x != id ==>
                  Ahead(u, x) <= Ahead(t, x) + (if task.priority > t[x].priority then {id} else {}))
  {
    var u := Enqueued(t, id, task, position, now);
    forall x | x in QueuedIds(t) && x != id
      ensures Ahead(u, x) <= Ahead(t, x) + (if task.priority > t[x].priority then {id} else {})
    {
      forall y | y in Ahead(u, x) ensures y in Ahead(t, x) || (y == id && task.priority > t[x].priority) {
        assert x in QueuedIds(u);
      }
    }
  }

  lemma TimeoutsKeep(t: Table, clock: Time, now: Time)
    requires WellTimed(t, clock) && WellPlaced(t)
    ensures var u := TimeoutsHandled(t, now);
            && SameQueue(t, u) && WellTimed(u, clock) && WellPlaced(u)
            && RunningIds(u) == RunningIds(t) - TimedOutIds(t, now)
            && (forall id :: id in QueuedIds(t) ==> Ahead(u, id) == Ahead(t, id))
  {
    var ids := TimedOutIds(t, now);
    assert forall id :: id in ids ==> id in RunningIds(t);
    if ids != {} {
      var v := FailAll(t, ids, now);
      RunningRowsFail(t, clock, ids, now);
      RenumberedSpec(v, clock);
      SameQueueSameSchedule(t, Renumbered(v), clock);
      forall id ensures id in RunningIds(Renumbered(v)) <==> id in RunningIds(v) { }
    }
  }

  class QueueManager {
    const store: TaskStore
    ghost var clock: Time

    ghost predicate Valid()
      reads this, store
    {
      WellTimed(store.rows, clock) && WellPlaced(store.rows)
    }

    constructor (store: TaskStore)
      requires store.rows == map[]
      ensures this.store == store && clock == 0 && Valid()
    {
      this.store := store;
      clock := 0;
    }

    method AddTaskToQueue(id: TaskId, task: Task, now: Time) returns (position: int)
      requires Valid() && clock < now
      modifies this`clock, store`rows
      ensures Valid() && clock == now
      ensures IsNextPosition(old(store.rows), position)
      ensures store.rows == Enqueued(old(store.rows), id, task, position, now)
      ensures store.rows == old(store.rows)[id := task.(status := Queued, queuePosition := Some(position),
                                                        queuedAt := Some(now))]
    {
      var rows := store.rows;
      var queued := QueuedIds(rows);
      position := 1;
      if queued != {} {
        PositionsLinear(rows);
        ghost var first := LeastExists(LastPositionFirst(rows), queued);
        var last :| last in queued && forall q :: q in queued && q != last ==> LastPositionFirst(rows)(last, q);
        AfterLast(rows, last);
        position := rows[last].queuePosition.value + 1;
      }
      EnqueueKeeps(rows, clock, id, task, position, now);
      store.rows := Enqueued(rows, id, task, position, now);
      clock := now;
    }

    /** The query for the next queued task. */
    method FirstInQueue() returns (next: TaskId)
      requires Valid() && QueuedIds(store.rows) != {}
      ensures IsLeast(ByTime(store.rows), QueuedIds(store.rows), next)
      ensures FirstServed(store.rows, next)
    {
      var queued := QueuedIds(store.rows);
      KeysAgree(store.rows, clock);
      ghost var first := LeastExists(ByPosition(store.rows), queued);
      next :| next in queued && forall q :: q in queued && q != next ==> ByPosition(store.rows)(next, q);
      assert IsLeast(ByPosition(store.rows), queued, next);
      LeastIsFirstServed(store.rows, clock, next);
    }

    method GetNextTask(now: Time) returns (r: Selection, ghost gifts: map<TaskId, Gift>)
      requires Valid()
      modifies store`rows
      ensures Valid()
      ensures old(Valid()) && Selects(store.oneToOne, old(store.rows), clock, now, store.rows, r, gifts)
      ensures SelectionOf(store.oneToOne, old(store.rows), now, store.rows, r)
    {
      ghost var t := store.rows;
      r, gifts := SelectNext(now);
      SelectsMeans(store.oneToOne, t, clock, now, store.rows, r, gifts);
    }

    /** One level of the recursion. */
    method SelectNext(now: Time) returns (r: Selection, ghost gifts: map<TaskId, Gift>)
      requires Valid()
      modifies store`rows
      ensures Valid()
      ensures old(Valid()) && Selects(store.oneToOne, old(store.rows), clock, now, store.rows, r, gifts)
      decreases QueuedIds(store.rows)
    {
      ghost var t := store.rows;
      gifts := map[];
      if RunningIds(store.rows) != {} {
        return NoTask, gifts;
      }
      if QueuedIds(store.rows) == {} {
        AdvancesNowhere(QueueManagerPolicy, t, clock, now);
        assert SkipCount(QueueManagerPolicy, t, Schedule(t, clock)) == 0;
        return NoTask, gifts;
      }
      var next := FirstInQueue();
      var purl := store.rows[next].purl;
      if !HasResult(store.rows, purl) {
        AdvancesAtOnce(QueueManagerPolicy, t, clock, now, next);
        return Next(next), gifts;
      }
      ChosenExists(QueueManagerPolicy, t, purl);
      var completed :| completed in store.rows && Chosen(QueueManagerPolicy, store.rows, purl, completed);
      var row := Reuse(store.rows[next], GiftOf(store.rows[completed]), now);
      SkipsReusableHead(QueueManagerPolicy, t, clock, next);
      if store.Conflicts(next, row) {
        return Aborted, gifts;  // the save fails; nothing of this transaction stays
      }
      store.rows := store.rows[next := row];
      ghost var g := GiftOf(t[completed]);
      HeadIsFirst(t, clock, next);
      HeadSettledInOrder(t, clock, next, g, now);
      store.UpdateQueuePositions(clock);
      r, gifts := SelectNext(now);
      AdvancesStep(QueueManagerPolicy, t, clock, now, next, completed, store.rows,
                   if r.Next? then Some(r.id) else None, gifts);
      gifts := gifts[next := g];
    }

    method CheckTimeouts(now: Time)
      requires Valid()
      modifies store`rows
      ensures Valid()
      ensures store.rows == TimeoutsHandled(old(store.rows), now)
      ensures TimeoutsOf(old(store.rows), now, store.rows)
    {
      ghost var t := store.rows;
      var running := store.rows;
      var timedOut := TimedOutIds(store.rows, now);
      TimedOutAreRunning(t, now);
      TimeoutsValid(t, clock, now);
      var left := timedOut;
      while left != {}
        invariant left <= timedOut
        invariant store.rows == Handled(t, timedOut - left, now)
        decreases left
      {
        ghost var some := Element(left);
        var id :| id in left;
        TimeoutStep(t, clock, timedOut - left, id, now);
        store.rows := store.rows[id := Fail(running[id], now)];
        store.UpdateQueuePositions(clock);
        assert timedOut - left + {id} == timedOut - (left - {id});
        left := left - {id};
      }
      assert timedOut - left == timedOut;
      TimeoutsMean(t, clock, now);
    }

    /** Processes a task with no other step in between; the steps apart are in QueueRuns. */
    method ProcessTask(id: TaskId, started: Time, outcome: Outcome, now: Time)
      requires Valid() && id in store.rows
      modifies store`rows
      ensures Valid()
      ensures store.rows == Renumbered(old(store.rows)[id := Processed(old(store.rows)[id], outcome, started, now)])
      ensures id in store.rows && ProcessedAs(old(store.rows)[id], outcome, started, now, store.rows[id])
      ensures OthersOnlyMoved(old(store.rows), id, store.rows)
    {
      ghost var t := store.rows;
      var task := store.rows[id];
      task := task.(status := Running, startedAt := Some(started));
      store.rows := store.rows[id := task];
      task := task.(queuePosition := None);
      store.rows := store.rows[id := task];
      match outcome {
        case Report(report, downloadUrl) =>
          task := task.(status := Completed, completedAt := Some(now), report := Some(report));
          store.rows := store.rows[id := task];
          if downloadUrl.Some? {
            task := task.(downloadUrl := downloadUrl);
            store.rows := store.rows[id := task];
          }
        case AnalysisError =>
          task := Fail(task, now);
          store.rows := store.rows[id := task];
      }
      assert store.rows == t[id := Processed(t[id], outcome, started, now)];
      WriteUnqueued(t, clock, id, task);
      RenumberedSpec(store.rows, clock);
      ProcessedMeans(t[id], outcome, started, now);
      RenumberedMoves(t, clock, id, task);
      store.UpdateQueuePositions(clock);
    }
  }

  /** order_by('-queue_position') */
  predicate AfterInPosition(t: Table, a: TaskId, b: TaskId) {
    a in t && b in t && NullsLast(t[b].queuePosition, t[a].queuePosition)
  }

  function LastPositionFirst(t: Table): (TaskId, TaskId) -> bool { (a, b) => AfterInPosition(t, a, b) }

  lemma AfterLast(t: Table, last: TaskId)
    requires WellPlaced(t) && IsLeast(LastPositionFirst(t), QueuedIds(t), last)
    ensures IsNextPosition(t, t[last].queuePosition.value + 1)
  {
    forall q | q in QueuedIds(t) && q != last ensures t[q].queuePosition.value < t[last].queuePosition.value {
      assert LastPositionFirst(t)(last, q);
    }
  }

  lemma PositionsLinear(t: Table)
    requires WellPlaced(t)
    ensures LinearOn(LastPositionFirst(t), QueuedIds(t))
  {
    forall x, y | x in QueuedIds(t) && y in QueuedIds(t)
      ensures LastPositionFirst(t)(x, y) <==> t[y].queuePosition.value < t[x].queuePosition.value
      ensures x != y ==> t[x].queuePosition.value != t[y].queuePosition.value
    {
    }
  }

  lemma TimeoutsValid(t: Table, clock: Time, now: Time)
    requires WellTimed(t, clock) && WellPlaced(t)
    ensures WellTimed(TimeoutsHandled(t, now), clock) && WellPlaced(TimeoutsHandled(t, now))
  {
    TimeoutsKeep(t, clock, now);
  }

  lemma TimeoutStep(t: Table, clock: Time, done: set<TaskId>, id: TaskId, now: Time)
    requires WellTimed(t, clock) && done <= RunningIds(t) && id in RunningIds(t) && id !in done
    ensures WellTimed(Handled(t, done, now)[id := Fail(t[id], now)], clock)
    ensures Renumbered(Handled(t, done, now)[id := Fail(t[id], now)]) == Handled(t, done + {id}, now)
  {
    var v := FailAll(t, done, now);
    RunningRowsFail(t, clock, done, now);
    RunningRowsFail(t, clock, done + {id}, now);
    assert FailAll(t, done + {id}, now) == v[id := Fail(t[id], now)];
    if done == {} {
      assert v == t;
    } else {
      RenumberedSpec(v, clock);
      RenumberWrite(v, clock, id, Fail(t[id], now));
      WriteUnqueued(Renumbered(v), clock, id, Fail(t[id], now));
    }
  }
}
