/** How a task can fail without ever having run: its opening is refused. */
module CeleryFailures {
  import opened Wrappers
  import opened TaskTable
  import opened CeleryTasks
  import opened CeleryRuns

  /**
   The opening of m's task raises: there is no such row, or another row runs and the retries are
   spent, or a finished result would be reused and the one-to-one column does not allow it.
   */
  ghost predicate Refused(oneToOne: bool, s: System, m: Message) {
    || m.id !in s.t
    || (OtherRunning(s.t, m.id) && m.retries >= MAX_RETRIES)
    || (!OtherRunning(s.t, m.id) && s.t[m.id].status != Completed && ReusableFor(s.t, m.id) && oneToOne)
  }

  /** An opening raises exactly if it is refused; a row that is there can then be marked failed at once. */
  lemma RefusedExactly(oneToOne: bool, s: System, w: int, m: Message, now: Time, s': System)
    requires Step(oneToOne, s, Open(w, m, now), s')
    ensures (w in s'.workers && s'.workers[w].Raised?) <==> Refused(oneToOne, s, m)
    ensures Refused(oneToOne, s, m) ==> s'.t == s.t && s'.workers == s.workers[w := Raised(m.id, m.retries)]
    ensures Refused(oneToOne, s, m) && m.id in s.t ==>
              exists s'' :: Step(oneToOne, s', MarkFailed(w, now), s'') && s''.t == s.t[m.id := Fail(s.t[m.id], now)]
  {
    if Refused(oneToOne, s, m) && m.id in s.t {
      var s'' := s'.(t := s'.t[m.id := Fail(s'.t[m.id], now)], clock := now,
                     workers := s'.workers[w := Closing(m.id, m.retries, true)]);
      assert Step(oneToOne, s', MarkFailed(w, now), s'');
    }
  }

  /** The task has been running in some state up to the n-th. */
  ghost predicate HasRun(states: seq<System>, n: nat, id: TaskId)
    requires n < |states|
  {
    exists k :: 0 <= k <= n && id in RunningIds(states[k].t)
  }

  ghost predicate RefusedAt(oneToOne: bool, states: seq<System>, events: seq<Event>, k: nat, id: TaskId)
    requires k < |events| && k < |states|
  {
    events[k].Open? && events[k].m.id == id && Refused(oneToOne, states[k], events[k].m)
  }

  /** An opening of the task was refused before the n-th state. */
  ghost predicate WasRefused(oneToOne: bool, states: seq<System>, events: seq<Event>, n: nat, id: TaskId)
    requires n <= |events| < |states|
  {
    exists k :: 0 <= k < n && RefusedAt(oneToOne, states, events, k, id)
  }

  /** Executions that hold a row have made it run; what has failed or raised has run or was refused. */
  ghost predicate Explained(oneToOne: bool, states: seq<System>, events: seq<Event>, n: nat)
    requires n <= |events| < |states|
  {
    && (forall id :: id in states[n].t && states[n].t[id].status == Failed ==>
          HasRun(states, n, id) || WasRefused(oneToOne, states, events, n, id))
    && (forall w :: w in states[n].workers && Holds(states[n].workers[w]) ==>
          HasRun(states, n, states[n].workers[w].id))
    && (forall w :: w in states[n].workers && states[n].workers[w].Raised? ==>
          var id := states[n].workers[w].id;
          HasRun(states, n, id) || WasRefused(oneToOne, states, events, n, id))
  }

  // ----- steps -----

  /** A row that fails in a step was running, or belongs to an execution that has raised. */
  lemma FailsOnlyAfter(oneToOne: bool, s: System, e: Event, s': System, id: TaskId)
    requires Inv(s) && Step(oneToOne, s, e, s') && id in s'.t && s'.t[id].status == Failed
    ensures || (id in s.t && s.t[id].status == Failed) || id in RunningIds(s.t)
            || (exists w :: w in s.workers && s.workers[w].Raised? && s.workers[w].id == id)
  {
    if OfExecution(e) {
      ExecutionFails(oneToOne, s, e, s', id);
    } else if e.Open? {
      OpenFailsNone(oneToOne, s, e.w, e.m, e.now, s', id);
    } else if e.Dispatch? {
      var sent :| Dispatched(oneToOne, s.t, s.clock, e.now, s'.t, sent);
      DispatchFailsNone(oneToOne, s.t, s.clock, e.now, s'.t, sent, id);
    } else if e.SweepTimeouts? {
      var ids := TimedOutIds(s.t, e.now);
      if ids != {} {
        var sent :| Dispatched(oneToOne, FailAll(s.t, ids, e.now), s.clock, e.now, s'.t, sent);
        DispatchFailsNone(oneToOne, FailAll(s.t, ids, e.now), s.clock, e.now, s'.t, sent, id);
        TimedOutAreRunning(s.t, e.now);
      }
    }
  }

  lemma ExecutionFails(oneToOne: bool, s: System, e: Event, s': System, id: TaskId)
    requires Inv(s) && OfExecution(e) && Step(oneToOne, s, e, s') && id in s'.t && s'.t[id].status == Failed
    ensures || (id in s.t && s.t[id].status == Failed)
            || (s.workers[e.w].Raised? && s.workers[e.w].id == id)
  {
  }

  lemma OpenFailsNone(oneToOne: bool, s: System, w: int, m: Message, now: Time, s': System, id: TaskId)
    requires Opened(oneToOne, s, w, m, now, s') && id in s'.t && s'.t[id].status == Failed
    ensures id in s.t && s.t[id].status == Failed
  {
    var u, o :|
      && Opens(oneToOne, s.t, m.id, now, u, o)
      && s'.workers == WorkersAfter(s.workers, w, m, o, u)
      && AfterOpening(oneToOne, u, o, s.clock, now, s.messages - multiset{m}, m, s');
    if o == Reused {
      var sent :| Dispatched(oneToOne, u, s.clock, now, s'.t, sent);
      DispatchFailsNone(oneToOne, u, s.clock, now, s'.t, sent, id);
    }
  }

  lemma DispatchFailsNone(oneToOne: bool, t: Table, clock: Time, now: Time, u: Table, sent: multiset<Message>,
                          id: TaskId)
    requires Dispatched(oneToOne, t, clock, now, u, sent) && id in u && u[id].status == Failed
    ensures id in t && t[id].status == Failed
  {
    var next, gifts :| Dispatches(oneToOne, t, clock, now, u, next, gifts) && sent == Sent(next);
    if u != t {
      assert u[id] == SettledRow(t, id, SkipCount(CeleryPolicy, t, Schedule(t, clock)), now, gifts);
    }
  }

  /** An execution after a step held its row before, or has just begun with it running. */
  lemma HoldsOnlyAfter(oneToOne: bool, s: System, e: Event, s': System, w: int)
    requires Step(oneToOne, s, e, s') && w in s'.workers && Holds(s'.workers[w])
    ensures || (w in s.workers && Holds(s.workers[w]) && s.workers[w].id == s'.workers[w].id)
            || s'.workers[w].id in RunningIds(s'.t)
  {
    if e.Open? {
      OpenHolds(oneToOne, s, e.w, e.m, e.now, s', w);
    }
  }

  lemma OpenHolds(oneToOne: bool, s: System, v: int, m: Message, now: Time, s': System, w: int)
    requires Opened(oneToOne, s, v, m, now, s') && w in s'.workers && Holds(s'.workers[w])
    ensures (w in s.workers && s'.workers[w] == s.workers[w]) || s'.workers[w].id in RunningIds(s'.t)
  {
    var u, o :|
      && Opens(oneToOne, s.t, m.id, now, u, o)
      && s'.workers == WorkersAfter(s.workers, v, m, o, u)
      && AfterOpening(oneToOne, u, o, s.clock, now, s.messages - multiset{m}, m, s');
  }

  /** An execution that has raised had raised before, or held its row, or has just been refused. */
  lemma RaisedOnlyAfter(oneToOne: bool, s: System, e: Event, s': System, w: int)
    requires Step(oneToOne, s, e, s') && w in s'.workers && s'.workers[w].Raised?
    ensures || (w in s.workers && (s.workers[w].Raised? || Holds(s.workers[w])) && s.workers[w].id == s'.workers[w].id)
            || (e.Open? && e.m.id == s'.workers[w].id && Refused(oneToOne, s, e.m))
  {
    if e.Open? && e.w == w {
      RefusedExactly(oneToOne, s, w, e.m, e.now, s');
    }
  }

  // ----- whole runs -----

  lemma HasRunLater(states: seq<System>, m: nat, n: nat, id: TaskId)
    requires m <= n < |states| && HasRun(states, m, id)
    ensures HasRun(states, n, id)
  {
    var k :| 0 <= k <= m && id in RunningIds(states[k].t);
  }

  lemma WasRefusedLater(oneToOne: bool, states: seq<System>, events: seq<Event>, n: nat, id: TaskId)
    requires n < |events| < |states|
    requires WasRefused(oneToOne, states, events, n, id) || RefusedAt(oneToOne, states, events, n, id)
    ensures WasRefused(oneToOne, states, events, n + 1, id)
  {
    var k :| 0 <= k <= n && RefusedAt(oneToOne, states, events, k, id);
  }

  lemma FailedExplained(oneToOne: bool, states: seq<System>, events: seq<Event>, n: nat, id: TaskId)
    requires Run(oneToOne, states, events) && n < |events| && Explained(oneToOne, states, events, n)
    requires id in states[n + 1].t && states[n + 1].t[id].status == Failed
    ensures HasRun(states, n + 1, id) || WasRefused(oneToOne, states, events, n + 1, id)
  {
    ReachableStates(oneToOne, states, events, n);
    FailsOnlyAfter(oneToOne, states[n], events[n], states[n + 1], id);
    if id in RunningIds(states[n].t) {
      assert HasRun(states, n + 1, id);
    } else if HasRun(states, n, id) {
      HasRunLater(states, n, n + 1, id);
    } else {
      WasRefusedLater(oneToOne, states, events, n, id);
    }
  }

  lemma HolderExplained(oneToOne: bool, states: seq<System>, events: seq<Event>, n: nat, w: int)
    requires Run(oneToOne, states, events) && n < |events| && Explained(oneToOne, states, events, n)
    requires w in states[n + 1].workers && Holds(states[n + 1].workers[w])
    ensures HasRun(states, n + 1, states[n + 1].workers[w].id)
  {
    var id := states[n + 1].workers[w].id;
    HoldsOnlyAfter(oneToOne, states[n], events[n], states[n + 1], w);
    if id in RunningIds(states[n + 1].t) {
      assert HasRun(states, n + 1, id);
    } else {
      HasRunLater(states, n, n + 1, id);
    }
  }

  lemma RaisedExplained(oneToOne: bool, states: seq<System>, events: seq<Event>, n: nat, w: int)
    requires Run(oneToOne, states, events) && n < |events| && Explained(oneToOne, states, events, n)
    requires w in states[n + 1].workers && states[n + 1].workers[w].Raised?
    ensures var id := states[n + 1].workers[w].id;
            HasRun(states, n + 1, id) || WasRefused(oneToOne, states, events, n + 1, id)
  {
    var id := states[n + 1].workers[w].id;
    RaisedOnlyAfter(oneToOne, states[n], events[n], states[n + 1], w);
    if HasRun(states, n, id) {
      HasRunLater(states, n, n + 1, id);
    } else {
      WasRefusedLater(oneToOne, states, events, n, id);
    }
  }

  lemma ExplainedStep(oneToOne: bool, states: seq<System>, events: seq<Event>, n: nat)
    requires Run(oneToOne, states, events) && n < |events| && Explained(oneToOne, states, events, n)
    ensures Explained(oneToOne, states, events, n + 1)
  {
    var s := states[n + 1];
    forall id | id in s.t && s.t[id].status == Failed
      ensures HasRun(states, n + 1, id) || WasRefused(oneToOne, states, events, n + 1, id)
    {
      FailedExplained(oneToOne, states, events, n, id);
    }
    forall w | w in s.workers && Holds(s.workers[w]) ensures HasRun(states, n + 1, s.workers[w].id) {
      HolderExplained(oneToOne, states, events, n, w);
    }
    forall w | w in s.workers && s.workers[w].Raised?
      ensures var id := s.workers[w].id;
              HasRun(states, n + 1, id) || WasRefused(oneToOne, states, events, n + 1, id)
    {
      RaisedExplained(oneToOne, states, events, n, w);
    }
  }

  lemma {:induction false} AlwaysExplained(oneToOne: bool, states: seq<System>, events: seq<Event>, n: nat)
    requires Run(oneToOne, states, events) && n <= |events|
    ensures Explained(oneToOne, states, events, n)
  {
    if n > 0 {
      AlwaysExplained(oneToOne, states, events, n - 1);
      ExplainedStep(oneToOne, states, events, n - 1);
    }
  }

  /** A task that has failed without ever having run was refused when it was opened. */
  lemma FailedWithoutRunningWasRefused(oneToOne: bool, states: seq<System>, events: seq<Event>, n: nat, id: TaskId)
    requires Run(oneToOne, states, events) && n < |states|
    requires id in states[n].t && states[n].t[id].status == Failed
    requires forall k :: 0 <= k <= n ==> id !in RunningIds(states[k].t)
    ensures exists k :: 0 <= k < n && RefusedAt(oneToOne, states, events, k, id)
  {
    AlwaysExplained(oneToOne, states, events, n);
    assert !HasRun(states, n, id);
  }

  /** A run in which task 2 waits behind task 1 and fails without ever having run. */
  lemma WaitingTaskCanFail(oneToOne: bool) returns (states: seq<System>, events: seq<Event>)
    ensures Run(oneToOne, states, events)
    ensures 2 in states[|events|].t && states[|events|].t[2].status == Failed
    ensures forall k :: 0 <= k < |states| ==> 2 !in RunningIds(states[k].t)
  {
    var s;
    states, events, s := FirstOfTwoBegins(oneToOne);
    assert 1 in RunningIds(s.t) && OtherRunning(s.t, 2);
    states, events, s := OpenedWhileBusy(oneToOne, states, events, s, Message(2, 0), 4);
    states, events, s := OpenedWhileBusy(oneToOne, states, events, s, Message(2, 1), 5);
    var failed := s.(t := s.t[2 := Fail(s.t[2], 6)], clock := 6, workers := s.workers[2 := Closing(2, 1, true)]);
    states, events := Extend(oneToOne, states, events, MarkFailed(2, 6), failed);
  }

  /** Worker 2 opens task 2 while another task runs. */
  lemma OpenedWhileBusy(oneToOne: bool, states: seq<System>, events: seq<Event>, s: System, m: Message, now: Time)
    returns (longer: seq<System>, more: seq<Event>, s': System)
    requires Run(oneToOne, states, events) && states[|events|] == s
    requires m.id in s.t && OtherRunning(s.t, m.id) && 2 !in s.workers && m in s.messages && s.clock <= now
    ensures Run(oneToOne, longer, more) && longer[|more|] == s' && longer == states + [s']
    ensures s'.t == s.t && s'.clock == now
    ensures if m.retries < MAX_RETRIES
            then s'.workers == s.workers && Message(m.id, m.retries + 1) in s'.messages
            else s'.workers == s.workers[2 := Raised(m.id, m.retries)]
  {
    var rest := s.messages - multiset{m};
    s' := if m.retries < MAX_RETRIES
          then s.(clock := now, messages := rest + multiset{Message(m.id, m.retries + 1)})
          else s.(clock := now, messages := rest, workers := s.workers[2 := Raised(m.id, m.retries)]);
    BusyOpens(oneToOne, s, 2, m, now, s');
    longer, more := Extend(oneToOne, states, events, Open(2, m, now), s');
  }

  /** Opening a task while another runs: the message is retried, or its worker raises. */
  lemma BusyOpens(oneToOne: bool, s: System, w: int, m: Message, now: Time, s': System)
    requires w !in s.workers && m in s.messages && s.clock <= now && m.id in s.t && OtherRunning(s.t, m.id)
    requires s'.t == s.t && s'.clock == now && s'.origin == s.origin
    requires s'.messages == s.messages - multiset{m}
                            + if m.retries < MAX_RETRIES then multiset{Message(m.id, m.retries + 1)} else multiset{}
    requires s'.workers == if m.retries < MAX_RETRIES then s.workers else s.workers[w := Raised(m.id, m.retries)]
    ensures Step(oneToOne, s, Open(w, m, now), s')
  {
    assert Opens(oneToOne, s.t, m.id, now, s.t, Busy);
    assert s'.workers == WorkersAfter(s.workers, w, m, Busy, s.t);
    assert s'.messages == if m.retries < MAX_RETRIES
                          then s.messages - multiset{m} + multiset{Message(m.id, m.retries + 1)}
                          else s.messages - multiset{m};
    assert AfterOpening(oneToOne, s.t, Busy, s.clock, now, s.messages - multiset{m}, m, s');
  }
}
