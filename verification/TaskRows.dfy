/** What the schedulers' operations write, field by field. */
module TaskRows {
  import opened Wrappers
  import opened Ordering
  import opened TaskTable

  /** The row has the fields that only submitting and enqueueing a task, and starting it, set. */
  ghost predicate SameTask(was: Task, row: Task) {
    && row.purl == was.purl && row.priority == was.priority && row.timeoutMinutes == was.timeoutMinutes
    && row.queuedAt == was.queuedAt && row.startedAt == was.startedAt
  }

  /** d is a finished task of the purl: it is completed and has a report. */
  ghost predicate FinishedTask(t: Table, d: TaskId, purl: string) {
    d in t && t[d].status == Completed && t[d].report.Some? && t[d].purl == purl
  }

  /** d is the finished task whose result is taken: the one of lowest id, or the one completed last. */
  ghost predicate Preferred(policy: Policy, t: Table, d: TaskId, purl: string) {
    && FinishedTask(t, d, purl)
    && forall e :: FinishedTask(t, e, purl) ==>
         if policy == QueueManagerPolicy then d <= e
         else t[d].completedAt.None?
              || (t[e].completedAt.Some? && t[e].completedAt.value <= t[d].completedAt.value)
  }

  /** The row is completed, at `now`, with the result of task d. */
  ghost predicate CompletedLike(was: Task, row: Task, d: Task, now: Time) {
    && row.status == Completed && row.completedAt == Some(now) && row.queuePosition == None
    && row.report == d.report && row.downloadUrl == d.downloadUrl
    && SameTask(was, row)
  }

  ghost predicate TakesResult(policy: Policy, t: Table, was: Task, row: Task, now: Time) {
    exists d :: d in t && Preferred(policy, t, d, was.purl) && CompletedLike(was, row, t[d], now)
  }

  /** a is served before b: its priority is higher, or the same and it was enqueued earlier. */
  ghost predicate ServedBefore(a: Task, b: Task) {
    || a.priority > b.priority
    || (a.priority == b.priority && a.queuedAt.Some? && b.queuedAt.Some? && a.queuedAt.value < b.queuedAt.value)
  }

  /** The task's purl has no finished task to take a result from. */
  ghost predicate WithoutResult(policy: Policy, t: Table, row: Task) {
    (policy == CeleryPolicy && row.purl == "") || forall d :: d in t ==> !FinishedTask(t, d, row.purl)
  }

  /** The task stays queued: it is the next one, or served after that. */
  ghost predicate Remains(t: Table, id: TaskId, next: Option<TaskId>) {
    next.Some? && next.value in t && id in t && (id == next.value || ServedBefore(t[next.value], t[id]))
  }

  ghost predicate OnlyMoved(was: Task, row: Task) { row == was.(queuePosition := row.queuePosition) }

  /**
   Working off the queue: every queued task served before the next one, or every one if there is no
   next, takes a finished result; the others only move up, and no other row changes.
   */
  ghost predicate WorkedOff(policy: Policy, t: Table, now: Time, u: Table, next: Option<TaskId>) {
    && u.Keys == t.Keys
    && (next.Some? ==> next.value in t && t[next.value].status == Queued && WithoutResult(policy, t, t[next.value]))
    && (forall id :: id in t && t[id].status != Queued ==> u[id] == t[id])
    && (forall id :: id in t && t[id].status == Queued ==>
          if Remains(t, id, next) then OnlyMoved(t[id], u[id]) else TakesResult(policy, t, t[id], u[id], now))
  }

  /** The positions left are 1, 2, 3 and so on, in the order of service, once a task has been settled. */
  ghost predicate MovedUp(t: Table, u: Table) {
    u == t || forall id :: id in u && u[id].status == Queued ==> u[id].queuePosition == Some(Rank(u, id) + 1)
  }

  lemma ServiceOrder(t: Table, clock: Time, a: TaskId, b: TaskId)
    requires WellTimed(t, clock) && a in QueuedIds(t) && b in QueuedIds(t)
    ensures Rank(t, a) < Rank(t, b) <==> ServedBefore(t[a], t[b])
  {
    RanksOrder(t, clock, a, b);
  }

  lemma FinishedIsDonor(t: Table, purl: string)
    ensures forall d :: FinishedTask(t, d, purl) <==> Donor(t, purl, d)
  {
  }

  lemma PreferredIsChosen(policy: Policy, t: Table, purl: string, d: TaskId)
    requires Chosen(policy, t, purl, d)
    ensures Preferred(policy, t, d, purl)
  {
    FinishedIsDonor(t, purl);
  }

  lemma TakesGift(policy: Policy, t: Table, id: TaskId, k: nat, now: Time, gifts: map<TaskId, Gift>)
    requires GiftsOk(policy, t, k, gifts) && id in QueuedIds(t) && Rank(t, id) < k
    ensures TakesResult(policy, t, t[id], SettledRow(t, id, k, now, gifts), now)
  {
    assert Given(policy, t, t[id].purl, gifts[id]);
    var d :| d in t && Chosen(policy, t, t[id].purl, d) && gifts[id] == GiftOf(t[d]);
    PreferredIsChosen(policy, t, t[id].purl, d);
    assert CompletedLike(t[id], SettledRow(t, id, k, now, gifts), t[d], now);
  }

  lemma NotReusable(policy: Policy, t: Table, id: TaskId)
    requires id in t
    ensures Reusable(policy, t, id) <==> !WithoutResult(policy, t, t[id])
  {
    FinishedIsDonor(t, t[id].purl);
  }

  lemma AdvancesWorksOff(policy: Policy, t: Table, clock: Time, now: Time, u: Table, next: Option<TaskId>,
                         gifts: map<TaskId, Gift>)
    requires WellTimed(t, clock) && Advances(policy, t, clock, now, u, next, gifts)
    ensures WorkedOff(policy, t, now, u, next)
  {
    var s := Schedule(t, clock);
    var k := SkipCount(policy, t, s);
    ScheduleByRank(t, clock);
    if next.Some? { NotReusable(policy, t, next.value); }
    forall id | id in t && t[id].status == Queued
      ensures if Remains(t, id, next) then OnlyMoved(t[id], u[id]) else TakesResult(policy, t, t[id], u[id], now)
    {
      assert id in QueuedIds(t) && u[id] == SettledRow(t, id, k, now, gifts);
      if next.Some? { ServiceOrder(t, clock, next.value, id); }
      assert Remains(t, id, next) <==> Rank(t, id) >= k by {
        if next.Some? && Rank(t, id) == k { assert id == next.value; }
      }
      if Rank(t, id) < k { TakesGift(policy, t, id, k, now, gifts); }
    }
  }

  lemma AdvancesMovesUp(policy: Policy, t: Table, clock: Time, now: Time, u: Table, next: Option<TaskId>,
                        gifts: map<TaskId, Gift>)
    requires WellTimed(t, clock) && Advances(policy, t, clock, now, u, next, gifts)
    ensures MovedUp(t, u)
  {
    var k := SkipCount(policy, t, Schedule(t, clock));
    if k == 0 {
      SettledNone(t, now, gifts);
    } else {
      SettledSpec(policy, t, clock, k, now, gifts);
      KeptPositions(t, u, clock, k, now, gifts);
    }
  }

  /** The first task to be served has a finished result. */
  ghost predicate HeadReusable(policy: Policy, t: Table) {
    exists h :: h in t && FirstServed(t, h) && !WithoutResult(policy, t, t[h])
  }

  ghost predicate FirstServed(t: Table, h: TaskId) {
    && h in t && t[h].status == Queued
    && forall q :: q in t && t[q].status == Queued && q != h ==> ServedBefore(t[h], t[q])
  }

  lemma SkipsExactly(policy: Policy, t: Table, clock: Time)
    requires WellTimed(t, clock)
    ensures SkipCount(policy, t, Schedule(t, clock)) > 0 <==> HeadReusable(policy, t)
  {
    var s := Schedule(t, clock);
    ScheduleByRank(t, clock);
    forall h, q | h in QueuedIds(t) && q in QueuedIds(t)
      ensures Rank(t, h) < Rank(t, q) <==> ServedBefore(t[h], t[q])
    {
      ServiceOrder(t, clock, h, q);
    }
    if SkipCount(policy, t, s) > 0 {
      assert FirstServed(t, s[0]) by {
        forall q | q in t && t[q].status == Queued && q != s[0] ensures ServedBefore(t[s[0]], t[q]) {
          assert q in QueuedIds(t) && s[Rank(t, q)] == q;
        }
      }
      NotReusable(policy, t, s[0]);
    }
    if HeadReusable(policy, t) {
      var h :| h in t && FirstServed(t, h) && !WithoutResult(policy, t, t[h]);
      assert h in QueuedIds(t) && s[Rank(t, h)] == h;
      assert s[0] in QueuedIds(t) && Rank(t, s[0]) == 0;
      assert h == s[0];
      NotReusable(policy, t, h);
    }
  }

  lemma LeastIsFirstServed(t: Table, clock: Time, h: TaskId)
    requires WellTimed(t, clock) && IsLeast(ByTime(t), QueuedIds(t), h)
    ensures FirstServed(t, h)
  {
    forall q | q in t && t[q].status == Queued && q != h ensures ServedBefore(t[h], t[q]) {
      assert q in QueuedIds(t) && ByTime(t)(h, q);
    }
  }

  lemma SomeRunning(t: Table)
    ensures (exists x :: x in t && t[x].status == Running) <==> RunningIds(t) != {}
  {
    assert forall x :: x in RunningIds(t) <==> x in t && t[x].status == Running;
    if RunningIds(t) != {} { var x := Element(RunningIds(t)); }
  }

  // ----- renumbering -----

  /** Every other row is as it was, but for the positions of queued rows. */
  ghost predicate OthersOnlyMoved(t: Table, id: TaskId, u: Table) {
    && u.Keys == t.Keys
    && forall x :: x in t && x != id ==>
         if t[x].status == Queued then OnlyMoved(t[x], u[x]) else u[x] == t[x]
  }

  lemma RenumberedMoves(t: Table, clock: Time, id: TaskId, row: Task)
    requires WellTimed(t, clock) && id in t && row.status != Queued
    ensures var u := Renumbered(t[id := row]);
            u.Keys == t.Keys && u[id] == row && OthersOnlyMoved(t, id, u)
  {
  }

  // ----- timeouts -----

  /** The task is running and has been for more than its minutes. */
  ghost predicate Overdue(row: Task, now: Time) {
    row.status == Running && row.startedAt.Some? && now - row.startedAt.value > row.timeoutMinutes * 60
  }

  /** Just the overdue tasks have failed, at `now`. */
  ghost predicate OverdueFailed(t: Table, now: Time, u: Table) {
    && u.Keys == t.Keys
    && forall id :: id in t ==>
         u[id] == if Overdue(t[id], now)
                  then t[id].(status := Failed, completedAt := Some(now), queuePosition := None) else t[id]
  }

  lemma TimeoutsFailOverdue(t: Table, now: Time)
    ensures OverdueFailed(t, now, FailAll(t, TimedOutIds(t, now), now))
    ensures TimedOutIds(t, now) != {} <==> exists id :: id in t && Overdue(t[id], now)
  {
    forall id | id in t ensures id in TimedOutIds(t, now) <==> Overdue(t[id], now) { }
    if TimedOutIds(t, now) != {} {
      var id := Element(TimedOutIds(t, now));
      assert Overdue(t[id], now);
    }
  }
}
