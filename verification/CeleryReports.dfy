/**
 Which report a completed row is linked to. The report is saved in one step and the latest report
 is read in another, so the two need not be the same.
 */
module CeleryReports {
  import opened Wrappers
  import opened TaskTable
  import opened CeleryTasks
  import opened CeleryRuns

  /** A row's report was saved by an analysis of the row's own purl. */
  ghost predicate OwnReport(row: Task, origin: map<ReportId, string>) {
    row.report.Some? ==> row.report.value in origin && origin[row.report.value] == row.purl
  }

  ghost predicate OwnReports(t: Table, origin: map<ReportId, string>) {
    forall id :: id in t ==> OwnReport(t[id], origin)
  }

  /** The report that x has saved is still the latest, and the one it is about to link is its own. */
  ghost predicate ExecutionOk(x: Execution, origin: map<ReportId, string>) {
    && (Holds(x) ==> OwnReport(x.row, origin))
    && (x.Reported? ==> IsLatest(origin, x.saved) && origin[x.saved] == x.row.purl)
    && (x.Linked? ==> x.report in origin && origin[x.report] == x.row.purl)
  }

  ghost predicate Owned(s: System) {
    OwnReports(s.t, s.origin) && forall w :: w in s.workers ==> ExecutionOk(s.workers[w], s.origin)
  }

  /** A report is saved while another execution has saved its own and not yet read the latest. */
  ghost predicate SavesBetween(s: System, e: Event) {
    e.SaveReport? && exists v :: v in s.workers && v != e.w && s.workers[v].Reported?
  }

  // ----- steps -----

  lemma SettledOwned(t: Table, k: nat, now: Time, gifts: map<TaskId, Gift>, origin: map<ReportId, string>)
    requires OwnReports(t, origin) && GiftsOk(CeleryPolicy, t, k, gifts)
    ensures OwnReports(Settled(t, k, now, gifts), origin)
  {
    var u := Settled(t, k, now, gifts);
    forall id | id in u ensures OwnReport(u[id], origin) {
      assert u[id] == SettledRow(t, id, k, now, gifts);
      if t[id].status == Queued && Rank(t, id) < k && id in gifts {
        assert id in QueuedIds(t);
        assert Given(CeleryPolicy, t, t[id].purl, gifts[id]);
        var d :| d in t && Chosen(CeleryPolicy, t, t[id].purl, d) && gifts[id] == GiftOf(t[d]);
        assert OwnReport(t[d], origin);
      }
    }
  }

  lemma DispatchOwned(oneToOne: bool, t: Table, clock: Time, now: Time, u: Table, sent: multiset<Message>,
                      origin: map<ReportId, string>)
    requires Dispatched(oneToOne, t, clock, now, u, sent) && OwnReports(t, origin)
    ensures OwnReports(u, origin)
  {
    var next, gifts :| Dispatches(oneToOne, t, clock, now, u, next, gifts) && sent == Sent(next);
    if u != t {
      SettledOwned(t, SkipCount(CeleryPolicy, t, Schedule(t, clock)), now, gifts, origin);
    }
  }

  lemma WriteOwned(t: Table, id: TaskId, row: Task, origin: map<ReportId, string>)
    requires OwnReports(t, origin) && OwnReport(row, origin)
    ensures OwnReports(t[id := row], origin)
  {
  }

  lemma OpenOwned(oneToOne: bool, s: System, w: int, m: Message, now: Time, s': System)
    requires Owned(s) && Opened(oneToOne, s, w, m, now, s')
    ensures Owned(s')
  {
    var u, o :|
      && Opens(oneToOne, s.t, m.id, now, u, o)
      && s'.workers == WorkersAfter(s.workers, w, m, o, u)
      && AfterOpening(oneToOne, u, o, s.clock, now, s.messages - multiset{m}, m, s');
    OpenedRowOwned(oneToOne, s, m, now, u, o);
    if o == Reused {
      var sent :| Dispatched(oneToOne, u, s.clock, now, s'.t, sent);
      DispatchOwned(oneToOne, u, s.clock, now, s'.t, sent, s.origin);
    }
  }

  lemma OpenedRowOwned(oneToOne: bool, s: System, m: Message, now: Time, u: Table, o: Opening)
    requires Owned(s) && Opens(oneToOne, s.t, m.id, now, u, o)
    ensures OwnReports(u, s.origin)
  {
    if o == Reused {
      var d :| ChosenFor(s.t, m.id, d) && u == s.t[m.id := Reuse(s.t[m.id], GiftOf(s.t[d]), now)];
      assert OwnReport(s.t[d], s.origin);
      WriteOwned(s.t, m.id, u[m.id], s.origin);
    } else if o == Begun {
      assert OwnReport(s.t[m.id], s.origin);
      WriteOwned(s.t, m.id, u[m.id], s.origin);
    }
  }

  /** A saved report is its own and the latest, unless an execution has just saved another. */
  lemma SaveOwned(s: System, w: int, report: ReportId, s': System)
    requires Owned(s) && w in s.workers && s.workers[w].Analysing? && !SavesBetween(s, SaveReport(w, report))
    requires forall r :: r in s.origin ==> r < report
    requires s'.t == s.t && s'.origin == s.origin[report := s.workers[w].row.purl]
    requires s'.workers == s.workers[w := Reported(s.workers[w].id, s.workers[w].retries, s.workers[w].row, report)]
    ensures Owned(s')
  {
    forall id | id in s'.t ensures OwnReport(s'.t[id], s'.origin) { assert OwnReport(s.t[id], s.origin); }
    forall v | v in s'.workers ensures ExecutionOk(s'.workers[v], s'.origin) {
      assert ExecutionOk(s.workers[v], s.origin);
    }
  }

  lemma StepKeepsOwned(oneToOne: bool, s: System, e: Event, s': System)
    requires Owned(s) && Step(oneToOne, s, e, s') && !SavesBetween(s, e)
    ensures Owned(s')
  {
    match e
    case Submit(id, task, position, now) =>
    case Redeliver(m) =>
    case Open(w, m, now) =>
      OpenOwned(oneToOne, s, w, m, now, s');
    case Heartbeat(w) =>
    case CacheHit(w, now) =>
      WriteOwned(s.t, s.workers[w].id, s'.t[s.workers[w].id], s.origin);
    case SaveReport(w, report) =>
      SaveOwned(s, w, report, s');
    case ReadLatest(w) =>
    case Complete(w, ended, now) =>
      WriteOwned(s.t, s.workers[w].id, s'.t[s.workers[w].id], s.origin);
    case SaveUrl(w, url) =>
      WriteOwned(s.t, s.workers[w].id, s'.t[s.workers[w].id], s.origin);
    case Raise(w) =>
    case MarkFailed(w, now) =>
      if s.workers[w].id in s.t {
        assert OwnReport(s.t[s.workers[w].id], s.origin);
        WriteOwned(s.t, s.workers[w].id, s'.t[s.workers[w].id], s.origin);
      }
    case Dispatch(w, now) =>
      var sent :| Dispatched(oneToOne, s.t, s.clock, now, s'.t, sent);
      DispatchOwned(oneToOne, s.t, s.clock, now, s'.t, sent, s.origin);
    case SweepTimeouts(now) =>
      SweepOwned(oneToOne, s, now, s');
    case Cleanup(ids) =>
    case WorkerLost(w) =>
  }

  lemma SweepOwned(oneToOne: bool, s: System, now: Time, s': System)
    requires Owned(s) && Step(oneToOne, s, SweepTimeouts(now), s')
    ensures OwnReports(s'.t, s.origin)
  {
    var ids := TimedOutIds(s.t, now);
    if ids != {} {
      var u := FailAll(s.t, ids, now);
      forall id | id in u ensures OwnReport(u[id], s.origin) { assert OwnReport(s.t[id], s.origin); }
      var sent :| Dispatched(oneToOne, u, s.clock, now, s'.t, sent);
      DispatchOwned(oneToOne, u, s.clock, now, s'.t, sent, s.origin);
    }
  }

  // ----- whole runs -----

  lemma {:induction false} AlwaysOwned(oneToOne: bool, states: seq<System>, events: seq<Event>, n: nat)
    requires Run(oneToOne, states, events) && n < |states|
    requires forall k :: 0 <= k < |events| ==> !SavesBetween(states[k], events[k])
    ensures Owned(states[n])
  {
    if n > 0 {
      AlwaysOwned(oneToOne, states, events, n - 1);
      OwnedStep(oneToOne, states, events, n - 1);
    }
  }

  /**
   If no report is ever saved while another execution is between saving its report and reading the
   latest, every row that has a report has one saved for its own purl, reused results included.
   */
  lemma RowsHaveOwnReports(oneToOne: bool, states: seq<System>, events: seq<Event>, n: nat, id: TaskId)
    requires Run(oneToOne, states, events) && n < |states|
    requires forall k :: 0 <= k < |events| ==> !SavesBetween(states[k], events[k])
    requires id in states[n].t && states[n].t[id].report.Some?
    ensures var r := states[n].t[id].report.value;
            r in states[n].origin && states[n].origin[r] == states[n].t[id].purl
  {
    AlwaysOwned(oneToOne, states, events, n);
    assert OwnReport(states[n].t[id], states[n].origin);
  }

  lemma OwnedStep(oneToOne: bool, states: seq<System>, events: seq<Event>, n: nat)
    requires Run(oneToOne, states, events) && n < |events| && Owned(states[n]) && !SavesBetween(states[n], events[n])
    ensures Owned(states[n + 1])
  {
    StepKeepsOwned(oneToOne, states[n], events[n], states[n + 1]);
  }

  /** With one worker no report is saved in between. */
  lemma OneWorkerSavesNothingBetween(s: System, e: Event, s': System, oneToOne: bool)
    requires Step(oneToOne, s, e, s') && |s.workers| <= 1
    ensures !SavesBetween(s, e)
  {
    if SavesBetween(s, e) {
      var v :| v in s.workers && v != e.w && s.workers[v].Reported?;
      assert {v, e.w} <= s.workers.Keys;
      SubsetCount({v, e.w}, s.workers.Keys);
    }
  }

  lemma SubsetCount(a: set<int>, b: set<int>)
    requires a <= b
    ensures |a| <= |b|
  {
    assert |b| == |a| + |b - a|;
  }

  /** No report is saved in the steps from m up to n. */
  ghost predicate NoneSaved(events: seq<Event>, m: nat, n: nat)
    requires m <= n <= |events|
  {
    forall k :: m <= k < n ==> !events[k].SaveReport?
  }

  /** The highest report id: unchanged while none is saved, and higher once one is. */
  lemma NoneSavedStep(events: seq<Event>, m: nat, n: nat)
    requires m < n <= |events|
    ensures NoneSaved(events, m, n) <==> NoneSaved(events, m, n - 1) && !events[n - 1].SaveReport?
  {
  }

  lemma {:induction false} LatestSince(oneToOne: bool, states: seq<System>, events: seq<Event>, m: nat, n: nat,
                                       r: ReportId)
    requires Run(oneToOne, states, events) && m <= n < |states| && IsLatest(states[m].origin, r)
    ensures r in states[n].origin
    ensures IsLatest(states[n].origin, r) <==> NoneSaved(events, m, n)
    decreases n
  {
    if m < n {
      LatestSince(oneToOne, states, events, m, n - 1, r);
      NoneSavedStep(events, m, n);
      OriginRunStep(oneToOne, states, events, n - 1, r);
    }
  }

  lemma OriginRunStep(oneToOne: bool, states: seq<System>, events: seq<Event>, n: nat, r: ReportId)
    requires Run(oneToOne, states, events) && n < |events| && r in states[n].origin
    ensures r in states[n + 1].origin
    ensures IsLatest(states[n + 1].origin, r) <==> IsLatest(states[n].origin, r) && !events[n].SaveReport?
  {
    OriginStep(oneToOne, states[n], events[n], states[n + 1], r);
  }

  lemma OriginStep(oneToOne: bool, s: System, e: Event, s': System, r: ReportId)
    requires Step(oneToOne, s, e, s') && r in s.origin
    ensures r in s'.origin
    ensures IsLatest(s'.origin, r) <==> IsLatest(s.origin, r) && !e.SaveReport?
  {
    if e.SaveReport? {
      assert e.report in s'.origin && r < e.report;
    } else {
      assert s'.origin == s.origin;
    }
  }

  /** An execution reads back the report it saved exactly if no report was saved in between. */
  lemma ReadsOwnReportExactly(oneToOne: bool, states: seq<System>, events: seq<Event>, m: nat, n: nat)
    requires Run(oneToOne, states, events) && m < n < |events|
    requires events[m].SaveReport? && events[n].ReadLatest? && events[n].w == events[m].w
    ensures events[n].w in states[n + 1].workers && states[n + 1].workers[events[n].w].Linked?
    ensures states[n + 1].workers[events[n].w].report == events[m].report <==> NoneSaved(events, m + 1, n)
  {
    var r := events[m].report;
    assert Step(oneToOne, states[m], events[m], states[m + 1]);
    assert IsLatest(states[m + 1].origin, r);
    LatestSince(oneToOne, states, events, m + 1, n, r);
    assert Step(oneToOne, states[n], events[n], states[n + 1]);
    var q :| IsLatest(states[n].origin, q) && states[n + 1].workers[events[n].w].report == q;
  }

  // ----- two workers -----

  const ROW1 := Begin(QueuedTask("a", 1, 1), 3)
  const ROW2 := Begin(QueuedTask("b", 2, 2), 5)

  /** Task 1 has timed out under its worker and task 2 has been sent again. */
  function Swept(): System {
    System(map[1 := Fail(ROW1, 4), 2 := QueuedTask("b", 2, 2)], 4, multiset{Message(2, 0), Message(2, 0)},
           map[1 := Analysing(1, 0, ROW1)], map[])
  }

  /** Task 2 has begun too. */
  function Overlapping(): System {
    System(map[1 := Fail(ROW1, 4), 2 := ROW2], 5, multiset{Message(2, 0)},
           map[1 := Analysing(1, 0, ROW1), 2 := Analysing(2, 0, ROW2)], map[])
  }

  lemma SweepDispatchesSecond(oneToOne: bool, s: System)
    requires s.clock == 3 && s.messages == multiset{Message(2, 0)} && s.origin == map[]
    requires s.t == map[1 := ROW1, 2 := QueuedTask("b", 2, 2)] && s.workers == map[1 := Analysing(1, 0, ROW1)]
    ensures Step(oneToOne, s, SweepTimeouts(4), Swept())
  {
    var u := Swept().t;
    assert TimedOutIds(s.t, 4) == {1} && FailAll(s.t, {1}, 4) == u;
    SecondIsNext(oneToOne, u);
  }

  lemma SecondIsNext(oneToOne: bool, u: Table)
    requires u == Swept().t
    ensures Dispatched(oneToOne, u, 3, 4, u, multiset{Message(2, 0)})
  {
    assert QueuedIds(u) == {2} && RunningIds(u) == {};
    AdvancesAtOnce(CeleryPolicy, u, 3, 4, 2);
    HeadIsFirst(u, 3, 2);
    assert Dispatches(oneToOne, u, 3, 4, u, Some(2), map[]);
    assert Sent(Some(2)) == multiset{Message(2, 0)};
  }

  lemma SecondBegins(oneToOne: bool)
    ensures Step(oneToOne, Swept(), Open(2, Message(2, 0), 5), Overlapping())
  {
    var s, s' := Swept(), Overlapping();
    assert s.t[2 := Begin(s.t[2], 5)] == s'.t;
    assert s.messages - multiset{Message(2, 0)} == s'.messages;
    assert s.workers[2 := Analysing(2, 0, ROW2)] == s'.workers;
    BeginsAlone(oneToOne, s, 2, Message(2, 0), 5, s');
  }

  lemma TimesOutUnderWorker(oneToOne: bool) returns (states: seq<System>, events: seq<Event>)
    ensures Run(oneToOne, states, events) && states[|events|] == Overlapping()
  {
    var s;
    states, events, s := FirstOfTwoBegins(oneToOne);
    SweepDispatchesSecond(oneToOne, s);
    states, events := Extend(oneToOne, states, events, SweepTimeouts(4), Swept());
    SecondBegins(oneToOne);
    states, events := Extend(oneToOne, states, events, Open(2, Message(2, 0), 5), Overlapping());
  }

  /** Both save, and the first then reads the second's report. */
  lemma ForeignReportRead(oneToOne: bool, states: seq<System>, events: seq<Event>, s: System)
    returns (longer: seq<System>, more: seq<Event>)
    requires Run(oneToOne, states, events) && states[|events|] == s == Overlapping()
    ensures Run(oneToOne, longer, more)
    ensures longer[|more|] == s.(origin := map[1 := "a", 2 := "b"],
                                 workers := map[1 := Linked(1, 0, ROW1, 2), 2 := Reported(2, 0, ROW2, 2)])
  {
    var a := s.(origin := s.origin[1 := "a"], workers := s.workers[1 := Reported(1, 0, ROW1, 1)]);
    longer, more := Extend(oneToOne, states, events, SaveReport(1, 1), a);
    var b := a.(origin := a.origin[2 := "b"], workers := a.workers[2 := Reported(2, 0, ROW2, 2)]);
    longer, more := Extend(oneToOne, longer, more, SaveReport(2, 2), b);
    assert IsLatest(b.origin, 2);
    var c := b.(workers := b.workers[1 := Linked(1, 0, ROW1, 2)]);
    longer, more := Extend(oneToOne, longer, more, ReadLatest(1), c);
    assert c.origin == map[1 := "a", 2 := "b"];
    assert c.workers == map[1 := Linked(1, 0, ROW1, 2), 2 := Reported(2, 0, ROW2, 2)];
  }

  /** Two executions that overlap so that one's row is linked to the report of the other's purl. */
  lemma OverlapLinksForeignReport(oneToOne: bool) returns (states: seq<System>, events: seq<Event>)
    ensures Run(oneToOne, states, events)
    ensures !OwnReports(states[|events|].t, states[|events|].origin)
  {
    states, events := TimesOutUnderWorker(oneToOne);
    states, events := ForeignReportRead(oneToOne, states, events, Overlapping());
    var c := states[|events|];
    var done := ROW1.(status := Completed, completedAt := Some(6), report := Some(2));
    var d := c.(t := c.t[1 := done], clock := 6, workers := c.workers[1 := Saved(1, 0, done)]);
    states, events := Extend(oneToOne, states, events, Complete(1, 6, 6), d);
    assert !OwnReport(d.t[1], d.origin);
  }
}
