/**
 Whole runs of the Celery tasks. Each transaction is one step; any number of
 workers may be between steps, messages may be redelivered at will, rows may time
 out under an execution, and a late completion may overwrite a failed row.
 */
module CeleryRuns {
  import opened Wrappers
  import opened Ordering
  import opened TaskTable
  import opened TaskRows
  import opened CeleryTasks

  datatype Message = Message(id: TaskId, retries: nat)

  /** One execution of run_dynamic_analysis between two of its transactions. */
  datatype Execution =
    | Analysing(id: TaskId, retries: nat, row: Task)
    | Reported(id: TaskId, retries: nat, row: Task, saved: ReportId)
    | Linked(id: TaskId, retries: nat, row: Task, report: ReportId)
    | Saved(id: TaskId, retries: nat, row: Task)
    | Raised(id: TaskId, retries: nat)
    | Closing(id: TaskId, retries: nat, failed: bool)

  /** `origin` records, for each report in the database, the purl of the task whose analysis saved it. */
  datatype System = System(
    t: Table, clock: Time, messages: multiset<Message>, workers: map<int, Execution>, origin: map<ReportId, string>)

  datatype Event =
    | Submit(id: TaskId, task: Task, position: int, now: Time)
    | Redeliver(m: Message)
    | Open(w: int, m: Message, now: Time)
    | Heartbeat(w: int)
    | CacheHit(w: int, now: Time)
    | SaveReport(w: int, report: ReportId)
    | ReadLatest(w: int)
    | Complete(w: int, ended: Time, now: Time)
    | SaveUrl(w: int, url: string)
    | Raise(w: int)
    | MarkFailed(w: int, now: Time)
    | Dispatch(w: int, now: Time)
    | SweepTimeouts(now: Time)
    | Cleanup(ids: set<TaskId>)
    | WorkerLost(w: int)

  function Sent(next: Option<TaskId>): multiset<Message> {
    if next.Some? then multiset{Message(next.value, 0)} else multiset{}
  }

  ghost predicate Dispatched(oneToOne: bool, t: Table, clock: Time, now: Time, u: Table, sent: multiset<Message>) {
    WellTimed(t, clock)
    && exists next, gifts :: Dispatches(oneToOne, t, clock, now, u, next, gifts) && sent == Sent(next)
  }

  /** The execution that follows an opening, if it goes on. */
  function Continues(m: Message, o: Opening, u: Table): Option<Execution> {
    match o
    case Missing => Some(Raised(m.id, m.retries))
    case Conflict => Some(Raised(m.id, m.retries))
    case Busy => if m.retries < MAX_RETRIES then None else Some(Raised(m.id, m.retries))
    case AlreadyDone => None
    case Reused => None
    case Begun => if m.id in u then Some(Analysing(m.id, m.retries, u[m.id])) else None
  }

  function WorkersAfter(workers: map<int, Execution>, w: int, m: Message, o: Opening, u: Table): map<int, Execution> {
    match Continues(m, o, u)
    case Some(e) => workers[w := e]
    case None => workers
  }

  ghost predicate Opened(oneToOne: bool, s: System, w: int, m: Message, now: Time, s': System) {
    exists u, o ::
      && Opens(oneToOne, s.t, m.id, now, u, o)
      && s'.workers == WorkersAfter(s.workers, w, m, o, u)
      && s'.origin == s.origin
      && AfterOpening(oneToOne, u, o, s.clock, now, s.messages - multiset{m}, m, s')
  }

  ghost predicate AfterOpening(oneToOne: bool, u: Table, o: Opening, clock: Time, now: Time, rest: multiset<Message>,
                               m: Message, s': System)
  {
    if o == Reused then
      exists sent :: Dispatched(oneToOne, u, clock, now, s'.t, sent) && s'.messages == rest + sent
    else if o == Busy && m.retries < MAX_RETRIES then
      s'.t == u && s'.messages == rest + multiset{Message(m.id, m.retries + 1)}
    else
      s'.t == u && s'.messages == rest
  }

  /** The execution holds the row of its task. */
  predicate Holds(x: Execution) { x.Analysing? || x.Reported? || x.Linked? || x.Saved? }

  /** The report that latest('id') returns. */
  ghost predicate IsLatest(origin: map<ReportId, string>, r: ReportId) {
    r in origin && forall q :: q in origin ==> q <= r
  }

  /** Another row has the report already. */
  ghost predicate Clashes(t: Table, id: TaskId, report: ReportId) {
    exists o :: o in t && o != id && t[o].report == Some(report)
  }

  ghost predicate Step(oneToOne: bool, s: System, e: Event, s': System) {
    match e
    case Submit(id, task, position, now) =>
      && id !in s.t && task.report == None && s.clock < now
      && s' == s.(t := s.t[id := task.(status := Queued, queuedAt := Some(now), queuePosition := Some(position))],
                  clock := now, messages := s.messages + multiset{Message(id, 0)})
    case Redeliver(m) =>
      s' == s.(messages := s.messages + multiset{m})
    case Open(w, m, now) =>
      w !in s.workers && m in s.messages && s.clock <= now && s'.clock == now && Opened(oneToOne, s, w, m, now, s')
    case Heartbeat(w) =>
      && w in s.workers && s.workers[w].Analysing?
      && var x := s.workers[w];
         s' == s.(workers := s.workers[w := if x.id in s.t then Analysing(x.id, x.retries, s.t[x.id])
                                            else Raised(x.id, x.retries)])
    case CacheHit(w, now) =>
      && w in s.workers && s.workers[w].Analysing? && s.clock <= now
      && var x := s.workers[w];
         s' == s.(t := s.t[x.id := x.row.(status := Completed, completedAt := Some(now))], clock := now,
                  workers := s.workers[w := Closing(x.id, x.retries, false)])
    case SaveReport(w, report) =>
      && w in s.workers && s.workers[w].Analysing? && (forall r :: r in s.origin ==> r < report)
      && var x := s.workers[w];
         s' == s.(origin := s.origin[report := x.row.purl],
                  workers := s.workers[w := Reported(x.id, x.retries, x.row, report)])
    case ReadLatest(w) =>
      && w in s.workers && s.workers[w].Reported?
      && var x := s.workers[w];
         exists r :: IsLatest(s.origin, r) && s' == s.(workers := s.workers[w := Linked(x.id, x.retries, x.row, r)])
    case Complete(w, ended, now) =>
      && w in s.workers && s.workers[w].Linked? && s.clock <= now && ended <= now
      && var x := s.workers[w];
         var row := x.row.(status := Completed, completedAt := Some(ended), report := Some(x.report));
         && !(oneToOne && Clashes(s.t, x.id, x.report))
         && s' == s.(t := s.t[x.id := row], clock := now, workers := s.workers[w := Saved(x.id, x.retries, row)])
    case SaveUrl(w, url) =>
      && w in s.workers && s.workers[w].Saved?
      && var x := s.workers[w];
         s' == s.(t := s.t[x.id := x.row.(downloadUrl := Some(url))],
                  workers := s.workers[w := Closing(x.id, x.retries, false)])
    case Raise(w) =>
      && w in s.workers && Holds(s.workers[w])
      && s' == s.(workers := s.workers[w := Raised(s.workers[w].id, s.workers[w].retries)])
    case MarkFailed(w, now) =>
      && w in s.workers && s.workers[w].Raised? && s.clock <= now
      && var x := s.workers[w];
         s' == s.(t := if x.id in s.t then s.t[x.id := Fail(s.t[x.id], now)] else s.t, clock := now,
                  workers := s.workers[w := Closing(x.id, x.retries, true)])
    case Dispatch(w, now) =>
      && w in s.workers && (s.workers[w].Closing? || s.workers[w].Saved?)
      && s.clock <= now && s'.clock == now && s'.origin == s.origin && s'.workers == s.workers - {w}
      && var x := s.workers[w];
         var retry := if x.Closing? && x.failed && x.retries < MAX_RETRIES
                      then multiset{Message(x.id, x.retries + 1)} else multiset{};
         exists sent :: Dispatched(oneToOne, s.t, s.clock, now, s'.t, sent) && s'.messages == s.messages + sent + retry
    case SweepTimeouts(now) =>
      && s.clock <= now && s'.clock == now && s'.origin == s.origin && s'.workers == s.workers
      && var ids := TimedOutIds(s.t, now);
         if ids == {} then s'.t == s.t && s'.messages == s.messages
         else exists sent :: Dispatched(oneToOne, FailAll(s.t, ids, now), s.clock, now, s'.t, sent)
                             && s'.messages == s.messages + sent
    case Cleanup(ids) =>
      && (forall id :: id in ids && id in s.t ==> s.t[id].status == Completed || s.t[id].status == Failed)
      && s' == s.(t := s.t - ids)
    case WorkerLost(w) =>
      && w in s.workers
      && s' == s.(workers := s.workers - {w},
                  messages := s.messages + multiset{Message(s.workers[w].id, s.workers[w].retries)})
  }

  // ----- the invariant -----

  ghost predicate OneRunning(t: Table) {
    forall a, b :: a in RunningIds(t) && b in RunningIds(t) ==> a == b
  }

  ghost predicate Inv(s: System) {
    && WellTimed(s.t, s.clock) && OneRunning(s.t)
    && forall w :: w in s.workers && s.workers[w].Saved? ==> s.workers[w].row.status == Completed
  }

  ghost predicate Initial(s: System) { s.t == map[] && s.workers == map[] && s.origin == map[] }

  // ----- every step keeps the invariant -----

  lemma WriteKeeps(t: Table, clock: Time, id: TaskId, row: Task, now: Time)
    requires WellTimed(t, clock) && OneRunning(t) && clock <= now && row.status != Queued && row.status != Running
    ensures WellTimed(t[id := row], now) && OneRunning(t[id := row])
  {
    WriteUnqueued(t, clock, id, row);
    LaterClock(t[id := row], clock, now);
    RunningShrinks(t, id, row);
  }

  lemma RunningShrinks(t: Table, id: TaskId, row: Task)
    requires row.status != Running
    ensures RunningIds(t[id := row]) <= RunningIds(t)
  {
    forall a | a in RunningIds(t[id := row]) ensures a in RunningIds(t) {
      assert a != id;
    }
  }

  lemma DispatchKeeps(oneToOne: bool, t: Table, clock: Time, now: Time, u: Table, sent: multiset<Message>)
    requires Dispatched(oneToOne, t, clock, now, u, sent) && clock <= now && OneRunning(t)
    ensures WellTimed(u, now) && OneRunning(u)
  {
    var next, gifts :| Dispatches(oneToOne, t, clock, now, u, next, gifts) && sent == Sent(next);
    if u != t {
      SettledSpec(CeleryPolicy, t, clock, SkipCount(CeleryPolicy, t, Schedule(t, clock)), now, gifts);
    }
    LaterClock(u, clock, now);
  }

  /** Only the opening transaction makes a row running, and only when no other row is. */
  lemma OpenKeeps(oneToOne: bool, s: System, m: Message, now: Time, s': System, u: Table, o: Opening)
    requires Inv(s) && s.clock <= now && Opens(oneToOne, s.t, m.id, now, u, o)
    requires AfterOpening(oneToOne, u, o, s.clock, now, s.messages - multiset{m}, m, s')
    ensures WellTimed(s'.t, now) && OneRunning(s'.t)
  {
    if o == Reused {
      var d :| ChosenFor(s.t, m.id, d) && u == s.t[m.id := Reuse(s.t[m.id], GiftOf(s.t[d]), now)];
      var sent :| Dispatched(oneToOne, u, s.clock, now, s'.t, sent);
      WriteKeeps(s.t, s.clock, m.id, u[m.id], s.clock);
      DispatchKeeps(oneToOne, u, s.clock, now, s'.t, sent);
    } else if o == Begun {
      BeginKeeps(s, m.id, now);
    } else {
      LaterClock(s.t, s.clock, now);
    }
  }

  lemma BeginKeeps(s: System, id: TaskId, now: Time)
    requires Inv(s) && s.clock <= now && id in s.t && !OtherRunning(s.t, id)
    ensures var u := s.t[id := Begin(s.t[id], now)];
            WellTimed(u, now) && OneRunning(u)
  {
    var u := s.t[id := Begin(s.t[id], now)];
    WriteUnqueued(s.t, s.clock, id, u[id]);
    LaterClock(u, s.clock, now);
    forall a | a in RunningIds(u) ensures a == id {
      assert a != id ==> a in RunningIds(s.t);
    }
  }

  lemma SweepKeeps(oneToOne: bool, s: System, now: Time, u: Table, sent: multiset<Message>)
    requires Inv(s) && s.clock <= now
    requires Dispatched(oneToOne, FailAll(s.t, TimedOutIds(s.t, now), now), s.clock, now, u, sent)
    ensures WellTimed(u, now) && OneRunning(u)
  {
    var ids := TimedOutIds(s.t, now);
    TimedOutAreRunning(s.t, now);
    RunningRowsFail(s.t, s.clock, ids, now);
    DispatchKeeps(oneToOne, FailAll(s.t, ids, now), s.clock, now, u, sent);
  }

  lemma SubmitKeeps(s: System, id: TaskId, row: Task, now: Time)
    requires Inv(s) && s.clock < now && id !in s.t && row.status == Queued && row.queuedAt == Some(now)
    ensures WellTimed(s.t[id := row], now) && OneRunning(s.t[id := row])
  {
    var u := s.t[id := row];
    forall x ensures x in QueuedIds(u) <==> x in QueuedIds(s.t) || x == id { }
    forall x ensures x in RunningIds(u) <==> x in RunningIds(s.t) { }
  }

  lemma CleanupKeeps(s: System, ids: set<TaskId>)
    requires Inv(s)
    ensures WellTimed(s.t - ids, s.clock) && OneRunning(s.t - ids)
  {
    forall x | x in QueuedIds(s.t - ids) ensures x in QueuedIds(s.t) { }
    forall x | x in RunningIds(s.t - ids) ensures x in RunningIds(s.t) { }
  }

  /** The steps of an execution after it has begun. */
  predicate OfExecution(e: Event) {
    || e.Heartbeat? || e.CacheHit? || e.SaveReport? || e.ReadLatest?
    || e.Complete? || e.SaveUrl? || e.Raise? || e.MarkFailed?
  }

  lemma ExecutionKeeps(oneToOne: bool, s: System, e: Event, s': System)
    requires Inv(s) && OfExecution(e) && Step(oneToOne, s, e, s')
    ensures Inv(s')
  {
    var id := s.workers[e.w].id;
    if s'.t != s.t {
      WriteKeeps(s.t, s.clock, id, s'.t[id], s'.clock);
    } else {
      LaterClock(s.t, s.clock, s'.clock);
    }
  }

  lemma TasksKeep(oneToOne: bool, s: System, e: Event, s': System)
    requires Inv(s) && (e.Dispatch? || e.SweepTimeouts?) && Step(oneToOne, s, e, s')
    ensures Inv(s')
  {
    if e.Dispatch? {
      var sent :| Dispatched(oneToOne, s.t, s.clock, e.now, s'.t, sent);
      DispatchKeeps(oneToOne, s.t, s.clock, e.now, s'.t, sent);
    } else if TimedOutIds(s.t, e.now) == {} {
      LaterClock(s.t, s.clock, e.now);
    } else {
      var sent :| Dispatched(oneToOne, FailAll(s.t, TimedOutIds(s.t, e.now), e.now), s.clock, e.now, s'.t, sent);
      SweepKeeps(oneToOne, s, e.now, s'.t, sent);
    }
  }

  lemma StepKeepsInv(oneToOne: bool, s: System, e: Event, s': System)
    requires Inv(s) && Step(oneToOne, s, e, s')
    ensures Inv(s')
  {
    if OfExecution(e) {
      ExecutionKeeps(oneToOne, s, e, s');
    } else if e.Dispatch? || e.SweepTimeouts? {
      TasksKeep(oneToOne, s, e, s');
    } else if e.Submit? {
      SubmitKeeps(s, e.id, s'.t[e.id], e.now);
    } else if e.Open? {
      var u, o :|
        && Opens(oneToOne, s.t, e.m.id, e.now, u, o)
        && s'.workers == WorkersAfter(s.workers, e.w, e.m, o, u)
        && AfterOpening(oneToOne, u, o, s.clock, e.now, s.messages - multiset{e.m}, e.m, s');
      OpenKeeps(oneToOne, s, e.m, e.now, s', u, o);
    } else if e.Cleanup? {
      CleanupKeeps(s, e.ids);
    }
  }

  // ----- what the steps write, field by field -----

  /** What the execution goes on as, if it does, after the opening transaction. */
  ghost predicate GoesOnAs(m: Message, o: Opening, u: Table, x: Option<Execution>) {
    match o
    case Begun => m.id in u && x == Some(Analysing(m.id, m.retries, u[m.id]))
    case Missing => x == Some(Raised(m.id, m.retries))
    case Conflict => x == Some(Raised(m.id, m.retries))
    case Busy => x == if m.retries >= 1 then Some(Raised(m.id, m.retries)) else None
    case AlreadyDone => x == None
    case Reused => x == None
  }

  /**
   Opening a task: the outcome, the rows and the execution that follows. A message that finds another
   task running is retried once; a reused result is followed by a dispatch.
   */
  ghost predicate OpeningStep(oneToOne: bool, s: System, w: int, m: Message, now: Time, s': System, o: Opening,
                              u: Table)
  {
    var rest := s.messages - multiset{m};
    && OutcomeOf(oneToOne, s.t, m.id, o) && OpeningWrites(s.t, m.id, now, u, o)
    && s'.clock == now && s'.origin == s.origin
    && (exists x :: GoesOnAs(m, o, u, x) && s'.workers == if x.Some? then s.workers[w := x.value] else s.workers)
    && if o == Reused then
         exists next :: DispatchOf(oneToOne, u, now, s'.t, next) && s'.messages == rest + MessagesFor(next)
       else
         s'.t == u
         && s'.messages == if o == Busy && m.retries < 1 then rest + multiset{Message(m.id, m.retries + 1)} else rest
  }

  /** The message that a dispatch sends. */
  ghost function MessagesFor(next: Option<TaskId>): multiset<Message> {
    match next
    case Some(id) => multiset{Message(id, 0)}
    case None => multiset{}
  }

  lemma OpenMeans(oneToOne: bool, s: System, w: int, m: Message, now: Time, s': System)
    requires Step(oneToOne, s, Open(w, m, now), s')
    ensures exists o, u :: OpeningStep(oneToOne, s, w, m, now, s', o, u)
  {
    var u, o :|
      && Opens(oneToOne, s.t, m.id, now, u, o)
      && s'.workers == WorkersAfter(s.workers, w, m, o, u)
      && AfterOpening(oneToOne, u, o, s.clock, now, s.messages - multiset{m}, m, s');
    OpensMeans(oneToOne, s.t, m.id, now, u, o);
    assert GoesOnAs(m, o, u, Continues(m, o, u));
    if o == Reused {
      ReuseDispatches(oneToOne, u, s.clock, now, s.messages - multiset{m}, m, s');
    }
    assert OpeningStep(oneToOne, s, w, m, now, s', o, u);
  }

  lemma ReuseDispatches(oneToOne: bool, u: Table, clock: Time, now: Time, rest: multiset<Message>, m: Message,
                        s': System)
    requires AfterOpening(oneToOne, u, Reused, clock, now, rest, m, s')
    ensures exists next :: DispatchOf(oneToOne, u, now, s'.t, next) && s'.messages == rest + MessagesFor(next)
  {
    var sent :| Dispatched(oneToOne, u, clock, now, s'.t, sent) && s'.messages == rest + sent;
    DispatchedMeans(oneToOne, u, clock, now, s'.t, sent);
  }

  /** Any dispatch works off the queue and sends the message of the next task. */
  lemma DispatchedMeans(oneToOne: bool, t: Table, clock: Time, now: Time, u: Table, sent: multiset<Message>)
    requires Dispatched(oneToOne, t, clock, now, u, sent)
    ensures exists next :: DispatchOf(oneToOne, t, now, u, next) && sent == MessagesFor(next)
  {
    var next, gifts :| Dispatches(oneToOne, t, clock, now, u, next, gifts) && sent == Sent(next);
    DispatchesMeans(oneToOne, t, clock, now, u, next, gifts);
  }

  /** What an execution saves later: only its own row. */
  lemma ExecutionWrites(oneToOne: bool, s: System, e: Event, s': System)
    requires OfExecution(e) && Step(oneToOne, s, e, s')
    ensures forall y :: y != s.workers[e.w].id ==> (y in s'.t <==> y in s.t) && (y in s.t ==> s'.t[y] == s.t[y])
    ensures e.Complete? || e.CacheHit? || e.SaveUrl? ==> Holds(s.workers[e.w]) && s.workers[e.w].id in s'.t
    ensures e.Complete? ==>
              var x := s.workers[e.w];
              x.Linked?
              && s'.t[x.id] == x.row.(status := Completed, completedAt := Some(e.ended), report := Some(x.report))
    ensures e.CacheHit? ==>
              var x := s.workers[e.w];
              s'.t[x.id] == x.row.(status := Completed, completedAt := Some(e.now))
    ensures e.SaveUrl? ==>
              var x := s.workers[e.w];
              s'.t[x.id] == x.row.(downloadUrl := Some(e.url))
    ensures e.MarkFailed? && s.workers[e.w].id in s.t ==>
              var id := s.workers[e.w].id;
              id in s'.t
              && s'.t[id] == s.t[id].(status := Failed, completedAt := Some(e.now), queuePosition := None)
    ensures e.Heartbeat? || e.SaveReport? || e.ReadLatest? || e.Raise? ==> s'.t == s.t
  {
  }

  // ----- whole runs -----

  ghost predicate Run(oneToOne: bool, states: seq<System>, events: seq<Event>) {
    && |states| == |events| + 1
    && Initial(states[0])
    && forall i :: 0 <= i < |events| ==> Step(oneToOne, states[i], events[i], states[i + 1])
  }

  /** In every reachable state at most one row is running. */
  lemma {:induction false} ReachableStates(oneToOne: bool, states: seq<System>, events: seq<Event>, n: nat)
    requires Run(oneToOne, states, events) && n < |states|
    ensures Inv(states[n])
    ensures forall a, b :: a in RunningIds(states[n].t) && b in RunningIds(states[n].t) ==> a == b
  {
    if n > 0 {
      ReachableStates(oneToOne, states, events, n - 1);
      StepKeepsInv(oneToOne, states[n - 1], events[n - 1], states[n]);
    }
  }

  /** A run and one step more. */
  lemma Extend(oneToOne: bool, states: seq<System>, events: seq<Event>, e: Event, s: System)
    returns (longer: seq<System>, more: seq<Event>)
    requires Run(oneToOne, states, events) && Step(oneToOne, states[|events|], e, s)
    ensures longer == states + [s] && more == events + [e] && Run(oneToOne, longer, more)
  {
    longer, more := states + [s], events + [e];
    forall i | 0 <= i < |more| ensures Step(oneToOne, longer[i], more[i], longer[i + 1]) {
      if i < |events| {
        assert longer[i] == states[i] && more[i] == events[i] && longer[i + 1] == states[i + 1];
      }
    }
  }

  // ----- beginnings of runs -----

  function NewTask(purl: string): Task {
    Task(purl, Pending, 0, None, None, None, None, 0, None, None)
  }

  function QueuedTask(purl: string, position: int, now: Time): Task {
    NewTask(purl).(status := Queued, queuedAt := Some(now), queuePosition := Some(position))
  }

  /** Two tasks of different purls are submitted and the first begins to be analysed. */
  lemma FirstOfTwoBegins(oneToOne: bool) returns (states: seq<System>, events: seq<Event>, s: System)
    ensures Run(oneToOne, states, events) && states[|events|] == s && |events| == 3
    ensures var row := Begin(QueuedTask("a", 1, 1), 3);
            s == System(map[1 := row, 2 := QueuedTask("b", 2, 2)], 3, multiset{Message(2, 0)},
                        map[1 := Analysing(1, 0, row)], map[])
    ensures forall i :: 0 <= i <= 3 ==> 2 !in RunningIds(states[i].t)
  {
    var start := System(map[], 0, multiset{}, map[], map[]);
    var s1 := System(map[1 := QueuedTask("a", 1, 1)], 1, multiset{Message(1, 0)}, map[], map[]);
    states, events := Extend(oneToOne, [start], [], Submit(1, NewTask("a"), 1, 1), s1);
    var t2 := map[1 := QueuedTask("a", 1, 1), 2 := QueuedTask("b", 2, 2)];
    var s2 := System(t2, 2, multiset{Message(1, 0), Message(2, 0)}, map[], map[]);
    assert s1.t[2 := QueuedTask("b", 2, 2)] == t2;
    states, events := Extend(oneToOne, states, events, Submit(2, NewTask("b"), 2, 2), s2);
    var row := Begin(QueuedTask("a", 1, 1), 3);
    s := System(map[1 := row, 2 := QueuedTask("b", 2, 2)], 3, multiset{Message(2, 0)},
                map[1 := Analysing(1, 0, row)], map[]);
    BeginsAlone(oneToOne, s2, 1, Message(1, 0), 3, s);
    states, events := Extend(oneToOne, states, events, Open(1, Message(1, 0), 3), s);
  }

  /** Opening a task when nothing runs and no result can be reused begins its analysis. */
  lemma BeginsAlone(oneToOne: bool, s: System, w: int, m: Message, now: Time, s': System)
    requires w !in s.workers && m in s.messages && s.clock <= now && m.id in s.t && s.t[m.id].status != Completed
    requires !OtherRunning(s.t, m.id) && !ReusableFor(s.t, m.id)
    requires s'.t == s.t[m.id := Begin(s.t[m.id], now)] && s'.clock == now && s'.origin == s.origin
    requires s'.messages == s.messages - multiset{m}
    requires s'.workers == s.workers[w := Analysing(m.id, m.retries, s'.t[m.id])]
    ensures Step(oneToOne, s, Open(w, m, now), s')
  {
    assert Opens(oneToOne, s.t, m.id, now, s'.t, Begun);
    assert s'.workers == WorkersAfter(s.workers, w, m, Begun, s'.t);
    assert AfterOpening(oneToOne, s'.t, Begun, s.clock, now, s.messages - multiset{m}, m, s');
  }
}
