/**
 The Celery tasks: dispatching the next queued task, the opening transaction of
 an analysis, and the periodic timeout pass.
 */
module CeleryTasks {
  import opened Wrappers
  import opened Ordering
  import opened TaskTable
  import opened TaskRows
  import opened TaskStore

  /** How often a message may be retried. */
  const MAX_RETRIES := 1

  /**
   Dispatching the next queued task: nothing while a task runs; otherwise the front of the queue is
   worked off and the first task without a result is sent. Under the unique report constraint the
   first reuse fails, the transaction is rolled back, and nothing is sent.
   */
  ghost predicate Dispatches(oneToOne: bool, t: Table, clock: Time, now: Time, u: Table, next: Option<TaskId>,
                             gifts: map<TaskId, Gift>)
    requires WellTimed(t, clock)
  {
    if RunningIds(t) != {} || (oneToOne && SkipCount(CeleryPolicy, t, Schedule(t, clock)) > 0) then
      u == t && next == None
    else
      Advances(CeleryPolicy, t, clock, now, u, next, gifts)
  }

  /** What the opening transaction of an analysis decides. */
  datatype Opening = Missing | Busy | AlreadyDone | Reused | Conflict | Begun

  /** Another row than id is running. */
  predicate OtherRunning(t: Table, id: TaskId) { exists o :: o in RunningIds(t) && o != id }

  predicate ReusableFor(t: Table, id: TaskId) {
    id in t && t[id].purl != "" && exists d :: d in t && d != id && Donor(t, t[id].purl, d)
  }

  /** The latest completed task with this purl and a report, other than id itself. */
  predicate ChosenFor(t: Table, id: TaskId, d: TaskId) {
    && id in t && d in t && d != id && Donor(t, t[id].purl, d)
    && forall e :: e in t && e != id && Donor(t, t[id].purl, e) ==>
         !NullsLast(t[d].completedAt, t[e].completedAt)
         && (t[e].completedAt.None? ==> t[d].completedAt.None?)
  }

  function Begin(row: Task, now: Time): Task {
    row.(status := Running, startedAt := Some(now), queuePosition := None)
  }

  /** The opening transaction, up to the nested dispatch that follows a reuse. */
  ghost predicate Opens(oneToOne: bool, t: Table, id: TaskId, now: Time, u: Table, o: Opening) {
    if id !in t then
      o == Missing && u == t
    else if OtherRunning(t, id) then
      o == Busy && u == t
    else if t[id].status == Completed then
      o == AlreadyDone && u == t
    else if ReusableFor(t, id) then
      if oneToOne then o == Conflict && u == t
      else o == Reused && exists d :: ChosenFor(t, id, d) && u == t[id := Reuse(t[id], GiftOf(t[d]), now)]
    else
      o == Begun && u == t[id := Begin(t[id], now)]
  }

  lemma ChosenForExists(t: Table, id: TaskId)
    requires ReusableFor(t, id)
    ensures exists d :: d in t && ChosenFor(t, id, d)
  {
    var others := t - {id};
    var w :| w in t && w != id && Donor(t, t[id].purl, w);
    assert w in others && Donor(others, t[id].purl, w);
    ChosenExists(CeleryPolicy, others, t[id].purl);
    var d :| d in others && Chosen(CeleryPolicy, others, t[id].purl, d);
    forall e | e in t && e != id && Donor(t, t[id].purl, e)
      ensures e in others && Donor(others, t[id].purl, e) && others[e] == t[e]
    {
    }
    assert ChosenFor(t, id, d);
  }

  // ----- what the tasks write, field by field -----

  /**
   What a dispatch leaves: nothing changes while a task runs, or if the unique report constraint
   rejects the first result to be reused; otherwise the queue is worked off up to the task sent.
   */
  ghost predicate DispatchOf(oneToOne: bool, t: Table, now: Time, u: Table, next: Option<TaskId>) {
    if (exists x :: x in t && t[x].status == Running) || (oneToOne && HeadReusable(CeleryPolicy, t))
    then next == None && u == t
    else WorkedOff(CeleryPolicy, t, now, u, next) && MovedUp(t, u)
  }

  lemma DispatchesMeans(oneToOne: bool, t: Table, clock: Time, now: Time, u: Table, next: Option<TaskId>,
                        gifts: map<TaskId, Gift>)
    requires WellTimed(t, clock) && Dispatches(oneToOne, t, clock, now, u, next, gifts)
    ensures DispatchOf(oneToOne, t, now, u, next)
  {
    SomeRunning(t);
    SkipsExactly(CeleryPolicy, t, clock);
    if RunningIds(t) == {} && !(oneToOne && HeadReusable(CeleryPolicy, t)) {
      AdvancesWorksOff(CeleryPolicy, t, clock, now, u, next, gifts);
      AdvancesMovesUp(CeleryPolicy, t, clock, now, u, next, gifts);
    }
  }

  /** A row other than id is running. */
  ghost predicate AnotherRuns(t: Table, id: TaskId) { exists x :: x in t && x != id && t[x].status == Running }

  /** The task has a purl, and another task of that purl is finished. */
  ghost predicate AnotherFinished(t: Table, id: TaskId) {
    id in t && t[id].purl != "" && exists d :: d in t && d != id && FinishedTask(t, d, t[id].purl)
  }

  /** d is the other finished task of id's purl that was completed last. */
  ghost predicate LastFinished(t: Table, id: TaskId, d: TaskId) {
    && id in t && d in t && d != id && FinishedTask(t, d, t[id].purl)
    && forall e :: e in t && e != id && FinishedTask(t, e, t[id].purl) ==>
         t[d].completedAt.None? || (t[e].completedAt.Some? && t[e].completedAt.value <= t[d].completedAt.value)
  }

  /** Which outcome the opening transaction has. */
  ghost predicate OutcomeOf(oneToOne: bool, t: Table, id: TaskId, o: Opening) {
    o == if id !in t then Missing
         else if AnotherRuns(t, id) then Busy
         else if t[id].status == Completed then AlreadyDone
         else if !AnotherFinished(t, id) then Begun
         else if oneToOne then Conflict else Reused
  }

  /** What the opening transaction writes: only its own row, and only if it begins or reuses a result. */
  ghost predicate OpeningWrites(t: Table, id: TaskId, now: Time, u: Table, o: Opening) {
    && u.Keys == t.Keys && (forall x :: x in t && x != id ==> u[x] == t[x])
    && (o != Begun && o != Reused ==> u == t)
    && (o == Begun ==>
          id in t && u[id] == t[id].(status := Running, startedAt := Some(now), queuePosition := None))
    && (o == Reused ==>
          id in t && exists d :: d in t && LastFinished(t, id, d) && CompletedLike(t[id], u[id], t[d], now))
  }

  /** The overdue rows fail; only if there are any, a dispatch follows. */
  ghost predicate TimeoutPass(oneToOne: bool, t: Table, now: Time, u: Table, next: Option<TaskId>) {
    if exists id :: id in t && Overdue(t[id], now)
    then exists v :: OverdueFailed(t, now, v) && DispatchOf(oneToOne, v, now, u, next)
    else u == t && next == None
  }

  lemma OpensMeans(oneToOne: bool, t: Table, id: TaskId, now: Time, u: Table, o: Opening)
    requires Opens(oneToOne, t, id, now, u, o)
    ensures OutcomeOf(oneToOne, t, id, o) && OpeningWrites(t, id, now, u, o)
  {
    assert forall x :: x in RunningIds(t) <==> x in t && t[x].status == Running;
    assert OtherRunning(t, id) <==> AnotherRuns(t, id) by {
      if OtherRunning(t, id) { var x :| x in RunningIds(t) && x != id; }
      if AnotherRuns(t, id) {
        var x :| x in t && x != id && t[x].status == Running;
        assert x in RunningIds(t);
      }
    }
    if id in t {
      FinishedIsDonor(t, t[id].purl);
      assert ReusableFor(t, id) <==> AnotherFinished(t, id);
      if o == Reused {
        var d :| ChosenFor(t, id, d) && u == t[id := Reuse(t[id], GiftOf(t[d]), now)];
        assert LastFinished(t, id, d) && CompletedLike(t[id], u[id], t[d], now);
      }
    }
  }

  class CeleryTasks {
    const store: TaskStore

    /** The task ids sent to the analysis queue, in order. */
    var sent: seq<TaskId>

    ghost var clock: Time

    ghost predicate Valid()
      reads this, store
    {
      WellTimed(store.rows, clock)
    }

    constructor (store: TaskStore)
      requires store.rows == map[]
      ensures this.store == store && sent == [] && clock == 0 && Valid()
    {
      this.store := store;
      sent := [];
      clock := 0;
    }

    method FirstInQueue() returns (next: TaskId)
      requires Valid() && QueuedIds(store.rows) != {}
      ensures IsLeast(ByTime(store.rows), QueuedIds(store.rows), next)
      ensures FirstServed(store.rows, next)
    {
      var queued := QueuedIds(store.rows);
      WellTimedLinear(store.rows, clock);
      ghost var first := LeastExists(ByTime(store.rows), queued);
      next :| next in queued && forall q :: q in queued && q != next ==> ByTime(store.rows)(next, q);
      LeastIsFirstServed(store.rows, clock, next);
    }

    /** Completes the first queued task with the latest finished result for its purl, and renumbers. */
    method ReuseResult(task: TaskId, now: Time) returns (saved: bool, ghost completed: TaskId)
      requires Valid() && task in QueuedIds(store.rows) && Rank(store.rows, task) == 0
      requires HasResult(store.rows, store.rows[task].purl)
      modifies store`rows
      ensures Valid()
      ensures saved <==> !store.oneToOne
      ensures !saved ==> store.rows == old(store.rows)
      ensures saved ==> task in store.rows && OthersOnlyMoved(old(store.rows), task, store.rows)
                        && TakesResult(CeleryPolicy, old(store.rows), old(store.rows)[task], store.rows[task], now)
      ensures saved ==>
                && completed in old(store.rows)
                && Chosen(CeleryPolicy, old(store.rows), old(store.rows)[task].purl, completed)
                && store.rows == HeadSettled(old(store.rows), task, GiftOf(old(store.rows)[completed]), now)
                && QueuedIds(store.rows) < QueuedIds(old(store.rows))
                && RunningIds(store.rows) == RunningIds(old(store.rows))
    {
      ghost var t := store.rows;
      var purl := store.rows[task].purl;
      ChosenExists(CeleryPolicy, t, purl);
      var donor :| donor in store.rows && Chosen(CeleryPolicy, store.rows, purl, donor);
      completed := donor;
      var row := Reuse(store.rows[task], GiftOf(store.rows[donor]), now);
      if store.Conflicts(task, row) {
        return false, completed;
      }
      HeadSettledInOrder(t, clock, task, GiftOf(t[donor]), now);
      store.rows := store.rows[task := row];
      store.UpdateQueuePositions(clock);
      RenumberedMoves(t, clock, task, row);
      PreferredIsChosen(CeleryPolicy, t, purl, donor);
      assert CompletedLike(t[task], row, t[donor], now);
      return true, completed;
    }

    method ProcessNextQueuedTask(now: Time) returns (next: Option<TaskId>, ghost gifts: map<TaskId, Gift>)
      requires Valid()
      modifies store`rows, this`sent
      ensures Valid()
      ensures old(Valid()) && Dispatches(store.oneToOne, old(store.rows), clock, now, store.rows, next, gifts)
      ensures DispatchOf(store.oneToOne, old(store.rows), now, store.rows, next)
      ensures sent == old(sent) + if next.Some? then [next.value] else []
    {
      ghost var t := store.rows;
      next, gifts := DispatchNext(now);
      DispatchesMeans(store.oneToOne, t, clock, now, store.rows, next, gifts);
    }

    /** One level of the recursion. */
    method DispatchNext(now: Time) returns (next: Option<TaskId>, ghost gifts: map<TaskId, Gift>)
      requires Valid()
      modifies store`rows, this`sent
      ensures Valid()
      ensures old(Valid()) && Dispatches(store.oneToOne, old(store.rows), clock, now, store.rows, next, gifts)
      ensures sent == old(sent) + if next.Some? then [next.value] else []
      decreases QueuedIds(store.rows)
    {
      ghost var t := store.rows;
      next, gifts := None, map[];
      if RunningIds(store.rows) != {} {
        return;
      }
      if QueuedIds(store.rows) == {} {
        AdvancesNowhere(CeleryPolicy, t, clock, now);
        assert SkipCount(CeleryPolicy, t, Schedule(t, clock)) == 0;
        return;
      }
      var task := FirstInQueue();
      var purl := store.rows[task].purl;
      if purl != "" && HasResult(store.rows, purl) {
        SkipsReusableHead(CeleryPolicy, t, clock, task);
        HeadIsFirst(t, clock, task);
        ghost var completed;
        var saved;
        saved, completed := ReuseResult(task, now);
        if !saved {
          return;  // the error is logged and the transaction rolled back
        }
        next, gifts := DispatchNext(now);
        AdvancesStep(CeleryPolicy, t, clock, now, task, completed, store.rows, next, gifts);
        gifts := gifts[task := GiftOf(t[completed])];
        return;
      }
      AdvancesAtOnce(CeleryPolicy, t, clock, now, task);
      sent := sent + [task];
      next := Some(task);
    }

    /** The opening transaction of run_dynamic_analysis. */
    method OpenAnalysis(id: TaskId, now: Time) returns (o: Opening, ghost u: Table, ghost next: Option<TaskId>)
      requires Valid()
      modifies store`rows, this`sent
      ensures Valid()
      ensures Opens(store.oneToOne, old(store.rows), id, now, u, o) && WellTimed(u, clock)
      ensures OutcomeOf(store.oneToOne, old(store.rows), id, o) && OpeningWrites(old(store.rows), id, now, u, o)
      ensures if o == Reused
              then (exists gifts :: Dispatches(store.oneToOne, u, clock, now, store.rows, next, gifts))
                   && DispatchOf(store.oneToOne, u, now, store.rows, next)
              else store.rows == u && next == None
      ensures sent == old(sent) + if next.Some? then [next.value] else []
    {
      ghost var t := store.rows;
      o, u := OpenRow(id, now);
      OpensMeans(store.oneToOne, t, id, now, u, o);
      next := None;
      if o == Reused {
        var sentTo, gifts := ProcessNextQueuedTask(now);
        next := sentTo;
      }
    }

    /** The opening transaction up to the nested dispatch that follows a reuse. */
    method OpenRow(id: TaskId, now: Time) returns (o: Opening, ghost u: Table)
      requires Valid()
      modifies store`rows
      ensures Valid() && store.rows == u
      ensures Opens(store.oneToOne, old(store.rows), id, now, u, o)
    {
      u := store.rows;
      if id !in store.rows { return Missing, u; }
      var task := store.rows[id];
      if OtherRunning(store.rows, id) { return Busy, u; }
      if task.status == Completed { return AlreadyDone, u; }
      if task.purl != "" && exists d :: d in store.rows && d != id && Donor(store.rows, task.purl, d) {
        ChosenForExists(store.rows, id);
        var completed :| completed in store.rows && ChosenFor(store.rows, id, completed);
        var row := Reuse(task, GiftOf(store.rows[completed]), now);
        if store.Conflicts(id, row) { return Conflict, u; }
        WriteUnqueued(store.rows, clock, id, row);
        store.rows := store.rows[id := row];
        return Reused, store.rows;
      }
      WriteUnqueued(store.rows, clock, id, Begin(task, now));
      store.rows := store.rows[id := Begin(task, now)];
      return Begun, store.rows;
    }

    /** Fails every running task that has timed out. */
    method FailTimedOut(now: Time) returns (any: bool)
      requires Valid()
      modifies store`rows
      ensures Valid()
      ensures store.rows == FailAll(old(store.rows), TimedOutIds(old(store.rows), now), now)
      ensures any <==> TimedOutIds(old(store.rows), now) != {}
      ensures OverdueFailed(old(store.rows), now, store.rows)
      ensures any <==> exists id :: id in old(store.rows) && Overdue(old(store.rows)[id], now)
    {
      ghost var t := store.rows;
      var running := store.rows;
      var timedOut := TimedOutIds(store.rows, now);
      TimedOutAreRunning(t, now);
      RunningRowsFail(t, clock, timedOut, now);
      var left := timedOut;
      while left != {}
        invariant left <= timedOut
        invariant store.rows == FailAll(t, timedOut - left, now)
        decreases left
      {
        ghost var some := Element(left);
        var id :| id in left;
        store.rows := store.rows[id := Fail(running[id], now)];
        assert timedOut - left + {id} == timedOut - (left - {id});
        left := left - {id};
      }
      assert timedOut - left == timedOut;
      TimeoutsFailOverdue(t, now);
      return timedOut != {};
    }

    /** The periodic timeout pass; a dispatch follows only if something had timed out. */
    method CheckTimeouts(now: Time) returns (ghost next: Option<TaskId>, ghost gifts: map<TaskId, Gift>)
      requires Valid()
      modifies store`rows, this`sent
      ensures Valid()
      ensures var t, ids := old(store.rows), TimedOutIds(old(store.rows), now);
              if ids == {} then store.rows == t && next == None
              else WellTimed(FailAll(t, ids, now), clock)
                   && Dispatches(store.oneToOne, FailAll(t, ids, now), clock, now, store.rows, next, gifts)
      ensures TimeoutPass(store.oneToOne, old(store.rows), now, store.rows, next)
      ensures sent == old(sent) + if next.Some? then [next.value] else []
    {
      ghost var t := store.rows;
      next, gifts := None, map[];
      var any := FailTimedOut(now);
      if any {
        var sentTo;
        ghost var v := store.rows;
        sentTo, gifts := ProcessNextQueuedTask(now);
        next := sentTo;
        assert OverdueFailed(t, now, v) && DispatchOf(store.oneToOne, v, now, store.rows, next);
      } else {
        assert FailAll(t, {}, now) == t;
      }
    }
  }
}
