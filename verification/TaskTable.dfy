/**
 The analysis-task table both schedulers work on: its rows, the schedule that
 orders the queued rows, renumbering, and the reuse of finished results.
 */
module TaskTable {
  import opened Wrappers
  import opened Ordering

  datatype Status = Pending | Queued | Running | Completed | Failed

  type TaskId = int
  type ReportId = int
  type Time = int  // seconds

  datatype Task = Task(
    purl: string,
    status: Status,
    priority: nat,
    queuePosition: Option<int>,
    queuedAt: Option<Time>,
    startedAt: Option<Time>,
    completedAt: Option<Time>,
    timeoutMinutes: nat,
    report: Option<ReportId>,
    downloadUrl: Option<string>)

  type Table = map<TaskId, Task>

  function QueuedIds(t: Table): set<TaskId> { set id | id in t && t[id].status == Queued }
  function RunningIds(t: Table): set<TaskId> { set id | id in t && t[id].status == Running }

  // ----- the schedule -----

  /** Ascending order of a nullable column: NULL sorts last. */
  predicate NullsLast(a: Option<int>, b: Option<int>) {
    a.Some? && (b.None? || a.value < b.value)
  }

  /** order_by('-priority', 'queued_at') */
  predicate Before(t: Table, a: TaskId, b: TaskId) {
    && a in t && b in t
    && (t[a].priority > t[b].priority
        || (t[a].priority == t[b].priority && NullsLast(t[a].queuedAt, t[b].queuedAt)))
  }

  /** order_by('-priority', 'queue_position') */
  predicate BeforeByPosition(t: Table, a: TaskId, b: TaskId) {
    && a in t && b in t
    && (t[a].priority > t[b].priority
        || (t[a].priority == t[b].priority && NullsLast(t[a].queuePosition, t[b].queuePosition)))
  }

  function ByTime(t: Table): (TaskId, TaskId) -> bool { (a, b) => Before(t, a, b) }
  function ByPosition(t: Table): (TaskId, TaskId) -> bool { (a, b) => BeforeByPosition(t, a, b) }

  /** Every queued row carries its own enqueue time, none later than the clock. */
  ghost predicate WellTimed(t: Table, clock: Time) {
    && (forall id :: id in QueuedIds(t) ==> t[id].queuedAt.Some? && t[id].queuedAt.value <= clock)
    && (forall a, b :: a in QueuedIds(t) && b in QueuedIds(t) && a != b ==> t[a].queuedAt != t[b].queuedAt)
  }

  /** Queued rows hold distinct positive positions, in enqueue order within each priority. */
  ghost predicate WellPlaced(t: Table) {
    && (forall id :: id in QueuedIds(t) ==> t[id].queuePosition.Some? && t[id].queuePosition.value > 0)
    && (forall a, b :: a in QueuedIds(t) && b in QueuedIds(t) && a != b
          ==> t[a].queuePosition != t[b].queuePosition)
    && (forall a, b :: a in QueuedIds(t) && b in QueuedIds(t) && t[a].priority == t[b].priority
          ==> (NullsLast(t[a].queuePosition, t[b].queuePosition) <==> NullsLast(t[a].queuedAt, t[b].queuedAt)))
  }

  lemma WellTimedLinear(t: Table, clock: Time)
    requires WellTimed(t, clock)
    ensures LinearOn(ByTime(t), QueuedIds(t))
  {
  }

  /** The queued rows, highest priority first, oldest first within a priority. */
  ghost function Schedule(t: Table, clock: Time): (s: seq<TaskId>)
    requires WellTimed(t, clock)
    ensures Lists(ByTime(t), QueuedIds(t), s)
  {
    WellTimedLinear(t, clock);
    Listing(ByTime(t), QueuedIds(t))
  }

  lemma ScheduleIs(t: Table, clock: Time, s: seq<TaskId>)
    requires WellTimed(t, clock) && Lists(ByTime(t), QueuedIds(t), s)
    ensures Schedule(t, clock) == s
  {
    WellTimedLinear(t, clock);
    ListingIs(ByTime(t), QueuedIds(t), s);
  }

  /** The two schedulers' sort keys put the queued rows in one and the same order. */
  lemma KeysAgree(t: Table, clock: Time)
    requires WellTimed(t, clock) && WellPlaced(t)
    ensures LinearOn(ByPosition(t), QueuedIds(t))
    ensures Listing(ByPosition(t), QueuedIds(t)) == Schedule(t, clock)
    ensures forall h :: IsLeast(ByPosition(t), QueuedIds(t), h) <==> IsLeast(ByTime(t), QueuedIds(t), h)
  {
    WellTimedLinear(t, clock);
    var Q := QueuedIds(t);
    assert forall a, b :: a in Q && b in Q ==> (BeforeByPosition(t, a, b) <==> Before(t, a, b));
    assert forall a, b :: a in Q && b in Q ==> (ByPosition(t)(a, b) <==> ByTime(t)(a, b));
    var s := Schedule(t, clock);
    assert forall i :: 0 <= i < |s| ==> s[i] in s;
    assert Lists(ByPosition(t), Q, s);
    ListingIs(ByPosition(t), Q, s);
  }

  // ----- ranks and renumbering -----

  /** The queued rows that are scheduled ahead of id. */
  ghost function Ahead(t: Table, id: TaskId): set<TaskId> {
    set x | x in QueuedIds(t) && Before(t, x, id)
  }

  /** The place of id in the schedule, counting from zero. */
  ghost function Rank(t: Table, id: TaskId): nat { |Ahead(t, id)| }

  ghost function Renumbered(t: Table): Table {
    map id | id in t :: if t[id].status == Queued then t[id].(queuePosition := Some(Rank(t, id) + 1)) else t[id]
  }

  lemma RankAt(t: Table, clock: Time, i: nat)
    requires WellTimed(t, clock) && i < |Schedule(t, clock)|
    ensures Schedule(t, clock)[i] in QueuedIds(t) && Rank(t, Schedule(t, clock)[i]) == i
  {
    WellTimedLinear(t, clock);
    var s := Schedule(t, clock);
    assert s[i] in s;
    ListingRank(ByTime(t), QueuedIds(t), s, i);
    assert Ahead(t, s[i]) == Below(ByTime(t), QueuedIds(t), s[i]);
  }

  lemma AtRank(t: Table, clock: Time, id: TaskId)
    requires WellTimed(t, clock) && id in QueuedIds(t)
    ensures Rank(t, id) < |Schedule(t, clock)| && Schedule(t, clock)[Rank(t, id)] == id
  {
    var s := Schedule(t, clock);
    assert id in s;
    var i :| 0 <= i < |s| && s[i] == id;
    RankAt(t, clock, i);
  }

  lemma OnlyAtRank(t: Table, clock: Time, i: nat)
    requires WellTimed(t, clock) && i < |Schedule(t, clock)|
    ensures Schedule(t, clock)[i] in QueuedIds(t)
    ensures forall id :: id in QueuedIds(t) ==> (Rank(t, id) == i <==> id == Schedule(t, clock)[i])
  {
    RankAt(t, clock, i);
    forall id | id in QueuedIds(t) && Rank(t, id) == i ensures id == Schedule(t, clock)[i] {
      AtRank(t, clock, id);
    }
  }

  lemma RanksBounded(t: Table, clock: Time)
    requires WellTimed(t, clock)
    ensures forall id :: id in QueuedIds(t) ==> Rank(t, id) < |Schedule(t, clock)|
  {
    forall id | id in QueuedIds(t) ensures Rank(t, id) < |Schedule(t, clock)| {
      AtRank(t, clock, id);
    }
  }

  /** The schedule is indexed by rank. */
  lemma ScheduleByRank(t: Table, clock: Time)
    requires WellTimed(t, clock)
    ensures forall i :: 0 <= i < |Schedule(t, clock)| ==>
              Schedule(t, clock)[i] in QueuedIds(t) && Rank(t, Schedule(t, clock)[i]) == i
    ensures forall id :: id in QueuedIds(t) ==>
              Rank(t, id) < |Schedule(t, clock)| && Schedule(t, clock)[Rank(t, id)] == id
  {
    forall i | 0 <= i < |Schedule(t, clock)|
      ensures Schedule(t, clock)[i] in QueuedIds(t) && Rank(t, Schedule(t, clock)[i]) == i
    {
      RankAt(t, clock, i);
    }
    forall id | id in QueuedIds(t)
      ensures Rank(t, id) < |Schedule(t, clock)| && Schedule(t, clock)[Rank(t, id)] == id
    {
      AtRank(t, clock, id);
    }
  }

  /** Ranks order the queued rows as the schedule does. */
  lemma RanksOrder(t: Table, clock: Time, a: TaskId, b: TaskId)
    requires WellTimed(t, clock) && a in QueuedIds(t) && b in QueuedIds(t)
    ensures Rank(t, a) < Rank(t, b) <==> Before(t, a, b)
    ensures a != b ==> Rank(t, a) != Rank(t, b)
  {
    ScheduleByRank(t, clock);
    var s := Schedule(t, clock);
    var i, j := Rank(t, a), Rank(t, b);
    if i < j {
      assert ByTime(t)(s[i], s[j]);
    } else if j < i {
      assert ByTime(t)(s[j], s[i]);
    }
  }

  /** A sequence that lists the queued rows by rank is the schedule. */
  lemma RankedIsSchedule(t: Table, clock: Time, s: seq<TaskId>)
    requires WellTimed(t, clock)
    requires forall i :: 0 <= i < |s| ==> s[i] in QueuedIds(t) && Rank(t, s[i]) == i
    requires forall id :: id in QueuedIds(t) ==> Rank(t, id) < |s|
    ensures Schedule(t, clock) == s
  {
    ScheduleByRank(t, clock);
    var w := Schedule(t, clock);
    forall i | 0 <= i < |s| ensures i < |w| && w[i] == s[i] {
      assert s[i] in QueuedIds(t) && Rank(t, s[i]) == i;
    }
    assert |s| > 0 ==> s[|s| - 1] in QueuedIds(t) && Rank(t, s[|s| - 1]) == |s| - 1;
    if w != [] {
      var last := w[|w| - 1];
      assert last in QueuedIds(t) && Rank(t, last) == |w| - 1;
    }
    assert |w| == |s|;
  }

  /** Rows whose queued part (status, priority, enqueue time) is the same are scheduled the same. */
  ghost predicate SameQueue(t: Table, u: Table) {
    && QueuedIds(t) == QueuedIds(u)
    && forall id :: id in QueuedIds(t) ==> t[id].priority == u[id].priority && t[id].queuedAt == u[id].queuedAt
  }

  lemma SameQueueSameSchedule(t: Table, u: Table, clock: Time)
    requires SameQueue(t, u) && WellTimed(t, clock)
    ensures WellTimed(u, clock) && Schedule(u, clock) == Schedule(t, clock)
    ensures forall id :: id in QueuedIds(t) ==> Ahead(u, id) == Ahead(t, id)
  {
    forall id | id in QueuedIds(t) ensures Ahead(u, id) == Ahead(t, id) {
      assert forall x :: x in QueuedIds(t) ==> (Before(u, x, id) <==> Before(t, x, id));
    }
    ScheduleByRank(t, clock);
    RankedIsSchedule(u, clock, Schedule(t, clock));
  }

  /** The positions follow the ranks: 1, 2, 3 and so on. */
  ghost predicate Numbered(t: Table) {
    forall id :: id in QueuedIds(t) ==> t[id].queuePosition == Some(Rank(t, id) + 1)
  }

  /** Positions that follow the ranks are well placed. */
  lemma RankedPositions(t: Table, clock: Time)
    requires WellTimed(t, clock) && Numbered(t)
    ensures WellPlaced(t)
  {
    forall a, b | a in QueuedIds(t) && b in QueuedIds(t)
      ensures a != b ==> t[a].queuePosition != t[b].queuePosition
      ensures t[a].priority == t[b].priority ==>
                (NullsLast(t[a].queuePosition, t[b].queuePosition) <==> NullsLast(t[a].queuedAt, t[b].queuedAt))
    {
      RanksOrder(t, clock, a, b);
    }
  }

  /** Renumbering gives the i-th scheduled row position i+1, changes nothing else, and is idempotent. */
  lemma RenumberedSpec(t: Table, clock: Time)
    requires WellTimed(t, clock)
    ensures Renumbered(t).Keys == t.Keys && SameQueue(t, Renumbered(t))
    ensures WellTimed(Renumbered(t), clock) && WellPlaced(Renumbered(t))
    ensures Schedule(Renumbered(t), clock) == Schedule(t, clock)
    ensures forall i :: 0 <= i < |Schedule(t, clock)| ==>
              var id := Schedule(t, clock)[i];
              id in t && Renumbered(t)[id] == t[id].(queuePosition := Some(i + 1))
    ensures forall id :: id in t && t[id].status != Queued ==> Renumbered(t)[id] == t[id]
    ensures Renumbered(Renumbered(t)) == Renumbered(t)
  {
    var u := Renumbered(t);
    RenumberedKeepsQueue(t);
    SameQueueSameSchedule(t, u, clock);
    RenumberedTwice(t);
    RankedPositions(u, clock);
    forall i | 0 <= i < |Schedule(t, clock)|
      ensures var id := Schedule(t, clock)[i]; id in t && u[id] == t[id].(queuePosition := Some(i + 1))
    {
      RankAt(t, clock, i);
    }
  }

  lemma RenumberedKeepsQueue(t: Table)
    ensures SameQueue(t, Renumbered(t))
  {
  }

  lemma SameRanks(t: Table, u: Table, id: TaskId)
    requires SameQueue(t, u) && id in QueuedIds(t)
    ensures Rank(u, id) == Rank(t, id)
  {
    forall x ensures x in Ahead(u, id) <==> x in Ahead(t, id) {
      assert x in QueuedIds(t) <==> x in QueuedIds(u);
    }
    assert Ahead(u, id) == Ahead(t, id);
  }

  lemma RenumberedTwice(t: Table)
    ensures Numbered(Renumbered(t)) && Renumbered(Renumbered(t)) == Renumbered(t)
  {
    RenumberedKeepsQueue(t);
    forall id | id in QueuedIds(t) ensures Rank(Renumbered(t), id) == Rank(t, id) {
      SameRanks(t, Renumbered(t), id);
    }
  }

  // ----- reuse of finished results -----

  /** Which finished task a scheduler copies from, and whether it skips blank purls. */
  datatype Policy = QueueManagerPolicy | CeleryPolicy

  datatype Gift = Gift(report: Option<ReportId>, downloadUrl: Option<string>)

  function GiftOf(row: Task): Gift { Gift(row.report, row.downloadUrl) }

  /** d is a completed task of purl p with a report. */
  predicate Donor(t: Table, p: string, d: TaskId) {
    d in t && t[d].status == Completed && t[d].purl == p && t[d].report.Some?
  }

  predicate HasResult(t: Table, p: string) { exists d :: d in t && Donor(t, p, d) }

  /** The donor the query's first() returns: lowest id, or latest completion (NULLs first). */
  predicate Chosen(policy: Policy, t: Table, p: string, d: TaskId) {
    && Donor(t, p, d)
    && forall e :: e in t && Donor(t, p, e) ==>
         match policy
         case QueueManagerPolicy => d <= e
         case CeleryPolicy => !NullsLast(t[d].completedAt, t[e].completedAt)
                              && (t[e].completedAt.None? ==> t[d].completedAt.None?)
  }

  predicate Reusable(policy: Policy, t: Table, id: TaskId) {
    id in t && HasResult(t, t[id].purl) && (policy == CeleryPolicy ==> t[id].purl != "")
  }

  /** The row a queued task becomes when it takes over a finished result. */
  function Reuse(row: Task, g: Gift, now: Time): Task {
    row.(status := Completed, report := g.report, downloadUrl := g.downloadUrl,
         completedAt := Some(now), queuePosition := None)
  }

  /** How many tasks at the front of s already have a finished result. */
  ghost function SkipCount(policy: Policy, t: Table, s: seq<TaskId>): (k: nat)
    ensures k <= |s|
    ensures forall i :: 0 <= i < k ==> Reusable(policy, t, s[i])
    ensures k < |s| ==> !Reusable(policy, t, s[k])
  {
    if s == [] || !Reusable(policy, t, s[0]) then 0 else 1 + SkipCount(policy, t, s[1..])
  }

  /** Each of the first k scheduled tasks is given the result of a completed task of its own purl. */
  ghost predicate GiftsOk(policy: Policy, t: Table, k: nat, gifts: map<TaskId, Gift>) {
    forall id :: id in QueuedIds(t) && Rank(t, id) < k ==> id in gifts && Given(policy, t, t[id].purl, gifts[id])
  }

  /** g is the result of the task chosen for p. */
  ghost predicate Given(policy: Policy, t: Table, p: string, g: Gift) {
    exists d :: d in t && Chosen(policy, t, p, d) && g == GiftOf(t[d])
  }

  /**
   The table once the first k scheduled tasks have been settled: they are completed with
   their gifts, the other queued rows move up by k, and every other row is as it was.
   */
  ghost function Settled(t: Table, k: nat, now: Time, gifts: map<TaskId, Gift>): Table {
    map id | id in t :: SettledRow(t, id, k, now, gifts)
  }

  ghost function SettledRow(t: Table, id: TaskId, k: nat, now: Time, gifts: map<TaskId, Gift>): Task
    requires id in t
  {
    if t[id].status != Queued then t[id]
    else if Rank(t, id) < k then (if id in gifts then Reuse(t[id], gifts[id], now) else t[id])
    else if k > 0 then t[id].(queuePosition := Some(Rank(t, id) + 1 - k))
    else t[id]
  }

  /** The head of the schedule is settled and the rest renumbered. */
  ghost function HeadSettled(t: Table, h: TaskId, g: Gift, now: Time): Table
    requires h in t
  {
    Renumbered(t[h := Reuse(t[h], g, now)])
  }

  /** Taking the head off the queue lowers every other rank by one. */
  lemma RemoveHead(t: Table, clock: Time, h: TaskId, row: Task)
    requires WellTimed(t, clock) && h in QueuedIds(t) && Rank(t, h) == 0 && row.status == Completed
    ensures var u := t[h := row];
            && QueuedIds(u) == QueuedIds(t) - {h} && RunningIds(u) == RunningIds(t)
            && WellTimed(u, clock)
            && (forall id :: id in QueuedIds(u) ==> Ahead(u, id) < Ahead(t, id) && Rank(u, id) == Rank(t, id) - 1)
  {
    var u := t[h := row];
    assert QueuedIds(u) == QueuedIds(t) - {h};
    assert RunningIds(u) == RunningIds(t);
    forall id | id in QueuedIds(u) ensures Ahead(u, id) < Ahead(t, id) && Rank(u, id) == Rank(t, id) - 1 {
      AheadWithoutHead(t, clock, h, row, id);
    }
  }

  lemma AheadWithoutHead(t: Table, clock: Time, h: TaskId, row: Task, id: TaskId)
    requires WellTimed(t, clock) && h in QueuedIds(t) && Rank(t, h) == 0 && row.status == Completed
    requires id in QueuedIds(t) && id != h
    ensures Ahead(t, id) == Ahead(t[h := row], id) + {h} && h !in Ahead(t[h := row], id)
  {
    RanksOrder(t, clock, h, id);
    var u := t[h := row];
    forall x ensures x in Ahead(t, id) <==> x in Ahead(u, id) || x == h {
      if x != h {
        assert x in QueuedIds(u) <==> x in QueuedIds(t);
      }
    }
  }

  /** Settling the head leaves every rank one lower and every position equal to the rank. */
  lemma SettleHead(t: Table, clock: Time, h: TaskId, g: Gift, now: Time)
    requires WellTimed(t, clock) && h in QueuedIds(t) && Rank(t, h) == 0
    ensures var u := HeadSettled(t, h, g, now);
            && QueuedIds(u) == QueuedIds(t) - {h} && RunningIds(u) == RunningIds(t)
            && WellTimed(u, clock) && WellPlaced(u)
            && (forall id :: id in QueuedIds(u) ==> Ahead(u, id) < Ahead(t, id) && Rank(u, id) == Rank(t, id) - 1)
            && u.Keys == t.Keys && u[h] == Reuse(t[h], g, now)
            && (forall id :: id in QueuedIds(u) ==> u[id] == t[id].(queuePosition := Some(Rank(t, id))))
            && (forall id :: id in t && id !in QueuedIds(t) ==> u[id] == t[id])
  {
    var t1 := t[h := Reuse(t[h], g, now)];
    RemoveHead(t, clock, h, Reuse(t[h], g, now));
    RenumberedSpec(t1, clock);
    SameQueueSameSchedule(t1, Renumbered(t1), clock);
    assert RunningIds(Renumbered(t1)) == RunningIds(t1);
  }

  /** Settling the head leaves a table in order with one queued row fewer. */
  lemma HeadSettledInOrder(t: Table, clock: Time, h: TaskId, g: Gift, now: Time)
    requires WellTimed(t, clock) && h in QueuedIds(t) && Rank(t, h) == 0
    ensures WellTimed(t[h := Reuse(t[h], g, now)], clock)
    ensures var u := HeadSettled(t, h, g, now);
            WellTimed(u, clock) && WellPlaced(u) && QueuedIds(u) < QueuedIds(t) && RunningIds(u) == RunningIds(t)
  {
    RemoveHead(t, clock, h, Reuse(t[h], g, now));
    SettleHead(t, clock, h, g, now);
  }

  lemma SettleHeadSchedule(t: Table, clock: Time, h: TaskId, g: Gift, now: Time)
    requires WellTimed(t, clock) && h in QueuedIds(t) && Rank(t, h) == 0
    ensures WellTimed(HeadSettled(t, h, g, now), clock)
    ensures Schedule(t, clock) == [h] + Schedule(HeadSettled(t, h, g, now), clock)
  {
    var u := HeadSettled(t, h, g, now);
    SettleHead(t, clock, h, g, now);
    ScheduleByRank(t, clock);
    ScheduleByRank(u, clock);
    RankedIsSchedule(t, clock, [h] + Schedule(u, clock));
  }

  /** A result that can be taken after the head was settled could have been taken before. */
  lemma ChosenBefore(policy: Policy, t: Table, clock: Time, h: TaskId, d: TaskId, now: Time, p: string, e: TaskId)
    returns (c: TaskId)
    requires WellTimed(t, clock) && h in QueuedIds(t) && Rank(t, h) == 0
    requires d in t && Chosen(policy, t, t[h].purl, d)
    requires Chosen(policy, HeadSettled(t, h, GiftOf(t[d]), now), p, e)
    ensures c in t && Chosen(policy, t, p, c) && GiftOf(t[c]) == GiftOf(HeadSettled(t, h, GiftOf(t[d]), now)[e])
  {
    var u := HeadSettled(t, h, GiftOf(t[d]), now);
    SettleHead(t, clock, h, GiftOf(t[d]), now);
    assert forall x :: x in t && Donor(t, p, x) ==> x in u && Donor(u, p, x) && u[x] == t[x];
    c := if e == h then d else e;
  }

  lemma ResultsKept(policy: Policy, t: Table, clock: Time, h: TaskId, d: TaskId, now: Time)
    requires WellTimed(t, clock) && h in QueuedIds(t) && Rank(t, h) == 0
    requires d in t && Donor(t, t[h].purl, d)
    ensures var u := HeadSettled(t, h, GiftOf(t[d]), now);
            && (forall p :: HasResult(u, p) <==> HasResult(t, p))
            && (forall id :: id in t ==> (Reusable(policy, u, id) <==> Reusable(policy, t, id)))
  {
    var u := HeadSettled(t, h, GiftOf(t[d]), now);
    SettleHead(t, clock, h, GiftOf(t[d]), now);
    forall p ensures HasResult(u, p) <==> HasResult(t, p) {
      if HasResult(t, p) {
        var x :| x in t && Donor(t, p, x);
        assert Donor(u, p, x);
      }
      if HasResult(u, p) {
        var x :| x in u && Donor(u, p, x);
        assert Donor(t, p, if x == h then d else x);
      }
    }
    assert forall id :: id in t ==> u[id].purl == t[id].purl;
  }

  /** The same tasks of s can take a finished result in both tables. */
  ghost predicate SameReusable(policy: Policy, t: Table, u: Table, s: seq<TaskId>) {
    forall i :: 0 <= i < |s| ==> (Reusable(policy, t, s[i]) <==> Reusable(policy, u, s[i]))
  }

  lemma {:induction false} SkipCountCongruent(policy: Policy, t: Table, u: Table, s: seq<TaskId>)
    requires SameReusable(policy, t, u, s)
    ensures SkipCount(policy, t, s) == SkipCount(policy, u, s)
  {
    if s != [] && Reusable(policy, t, s[0]) {
      SkipCountCongruent(policy, t, u, s[1..]);
    }
  }

  lemma SkipCountCons(policy: Policy, t: Table, h: TaskId, s: seq<TaskId>)
    requires Reusable(policy, t, h)
    ensures SkipCount(policy, t, [h] + s) == 1 + SkipCount(policy, t, s)
  {
    assert ([h] + s)[1..] == s;
  }

  /** Settling a reusable head leaves one task fewer to skip. */
  lemma SkipCountStep(policy: Policy, t: Table, clock: Time, h: TaskId, d: TaskId, now: Time)
    requires WellTimed(t, clock) && h in QueuedIds(t) && Rank(t, h) == 0
    requires d in t && Donor(t, t[h].purl, d) && Reusable(policy, t, h)
    ensures var v := HeadSettled(t, h, GiftOf(t[d]), now);
            && WellTimed(v, clock)
            && Schedule(t, clock) == [h] + Schedule(v, clock)
            && SkipCount(policy, t, Schedule(t, clock)) == 1 + SkipCount(policy, v, Schedule(v, clock))
  {
    var v := HeadSettled(t, h, GiftOf(t[d]), now);
    SettleHeadSchedule(t, clock, h, GiftOf(t[d]), now);
    var s := Schedule(v, clock);
    RestReusable(policy, t, clock, h, d, now, v, s);
    SkipCountCongruent(policy, t, v, s);
    SkipCountCons(policy, t, h, s);
  }

  lemma RestReusable(policy: Policy, t: Table, clock: Time, h: TaskId, d: TaskId, now: Time, v: Table, s: seq<TaskId>)
    requires WellTimed(t, clock) && h in QueuedIds(t) && Rank(t, h) == 0
    requires d in t && Donor(t, t[h].purl, d)
    requires v == HeadSettled(t, h, GiftOf(t[d]), now) && Schedule(t, clock) == [h] + s
    ensures SameReusable(policy, t, v, s)
  {
    forall i | 0 <= i < |s| ensures Reusable(policy, t, s[i]) <==> Reusable(policy, v, s[i]) {
      assert s[i] == Schedule(t, clock)[i + 1];
      ReusableKept(policy, t, clock, h, d, now, i + 1, s[i], v);
    }
  }

  lemma ReusableKept(policy: Policy, t: Table, clock: Time, h: TaskId, d: TaskId, now: Time, i: nat, id: TaskId,
                     v: Table)
    requires WellTimed(t, clock) && h in QueuedIds(t) && Rank(t, h) == 0
    requires d in t && Donor(t, t[h].purl, d) && i < |Schedule(t, clock)|
    requires id == Schedule(t, clock)[i] && v == HeadSettled(t, h, GiftOf(t[d]), now)
    ensures Reusable(policy, t, id) <==> Reusable(policy, v, id)
  {
    RankAt(t, clock, i);
    ResultsKept(policy, t, clock, h, d, now);
  }

  lemma GiftsStep(policy: Policy, t: Table, clock: Time, h: TaskId, d: TaskId, now: Time, k: nat,
                  gifts: map<TaskId, Gift>)
    requires WellTimed(t, clock) && h in QueuedIds(t) && Rank(t, h) == 0
    requires d in t && Chosen(policy, t, t[h].purl, d)
    requires GiftsOk(policy, HeadSettled(t, h, GiftOf(t[d]), now), k, gifts)
    ensures GiftsOk(policy, t, k + 1, gifts[h := GiftOf(t[d])])
  {
    var u := HeadSettled(t, h, GiftOf(t[d]), now);
    SettleHead(t, clock, h, GiftOf(t[d]), now);
    forall id | id in QueuedIds(t) && id != h && Rank(t, id) < k + 1
      ensures id in gifts && Given(policy, t, t[id].purl, gifts[id])
    {
      assert id in QueuedIds(u) && Given(policy, u, u[id].purl, gifts[id]);
      var e :| e in u && Chosen(policy, u, u[id].purl, e) && gifts[id] == GiftOf(u[e]);
      var c := ChosenBefore(policy, t, clock, h, d, now, u[id].purl, e);
    }
  }

  /** One queued row after the head was settled. */
  lemma HeadSettledRow(t: Table, clock: Time, h: TaskId, g: Gift, now: Time, id: TaskId)
    requires WellTimed(t, clock) && h in QueuedIds(t) && Rank(t, h) == 0 && id in t
    ensures id in HeadSettled(t, h, g, now)
    ensures var row := HeadSettled(t, h, g, now)[id];
            if id == h then row == Reuse(t[h], g, now)
            else if t[id].status != Queued then row == t[id]
            else Rank(t, id) > 0 && Rank(HeadSettled(t, h, g, now), id) == Rank(t, id) - 1
                 && row == t[id].(queuePosition := Some(Rank(t, id)))
  {
    SettleHead(t, clock, h, g, now);
    if id != h && t[id].status == Queued {
      assert id in QueuedIds(HeadSettled(t, h, g, now));
    } else if t[id].status != Queued {
      assert id !in QueuedIds(t);
    }
  }

  lemma SettleRow(t: Table, clock: Time, h: TaskId, g: Gift, now: Time, k: nat, gifts: map<TaskId, Gift>, id: TaskId)
    requires WellTimed(t, clock) && h in QueuedIds(t) && Rank(t, h) == 0 && id in t
    requires id != h && t[id].status == Queued && Rank(t, id) <= k ==> id in gifts
    ensures id in HeadSettled(t, h, g, now)
    ensures SettledRow(HeadSettled(t, h, g, now), id, k, now, gifts) == SettledRow(t, id, k + 1, now, gifts[h := g])
  {
    HeadSettledRow(t, clock, h, g, now, id);
  }

  /** Settling the head and then k more is settling k+1. */
  lemma SettleStep(policy: Policy, t: Table, clock: Time, h: TaskId, g: Gift, now: Time, k: nat,
                   gifts: map<TaskId, Gift>)
    requires WellTimed(t, clock) && h in QueuedIds(t) && Rank(t, h) == 0
    requires GiftsOk(policy, HeadSettled(t, h, g, now), k, gifts)
    ensures Settled(HeadSettled(t, h, g, now), k, now, gifts) == Settled(t, k + 1, now, gifts[h := g])
  {
    var u := HeadSettled(t, h, g, now);
    forall id | id in t ensures SettledRow(u, id, k, now, gifts) == SettledRow(t, id, k + 1, now, gifts[h := g]) {
      HeadSettledRow(t, clock, h, g, now, id);
      assert u[id].status == Queued ==> id in QueuedIds(u);
      SettleRow(t, clock, h, g, now, k, gifts, id);
    }
  }

  ghost predicate Kept(t: Table, u: Table, k: nat) {
    && (forall x :: x in QueuedIds(u) <==> x in QueuedIds(t) && Rank(t, x) >= k)
    && (forall x :: x in QueuedIds(u) ==> t[x].priority == u[x].priority && t[x].queuedAt == u[x].queuedAt)
  }

  ghost function Front(t: Table, k: nat): set<TaskId> { set x | x in QueuedIds(t) && Rank(t, x) < k }

  lemma FrontGrows(t: Table, clock: Time, k: nat)
    requires WellTimed(t, clock) && k < |Schedule(t, clock)|
    ensures Front(t, k + 1) == Front(t, k) + {Schedule(t, clock)[k]} && Schedule(t, clock)[k] !in Front(t, k)
  {
    OnlyAtRank(t, clock, k);
  }

  lemma {:induction false} FrontSize(t: Table, clock: Time, k: nat)
    requires WellTimed(t, clock) && k <= |Schedule(t, clock)|
    ensures |Front(t, k)| == k
  {
    if k == 0 {
      assert Front(t, k) == {};
    } else {
      FrontSize(t, clock, k - 1);
      FrontGrows(t, clock, k - 1);
    }
  }

  /** Ranks drop by the number of rows taken off the front. */
  lemma KeptRank(t: Table, u: Table, clock: Time, k: nat, id: TaskId)
    requires WellTimed(t, clock) && Kept(t, u, k) && k <= |Schedule(t, clock)| && id in QueuedIds(u)
    ensures Ahead(u, id) <= Ahead(t, id) && Rank(u, id) == Rank(t, id) - k
  {
    forall x ensures x in Ahead(t, id) <==> x in Front(t, k) || x in Ahead(u, id) {
      if x in Front(t, k) { RanksOrder(t, clock, x, id); }
    }
    assert Ahead(t, id) == Front(t, k) + Ahead(u, id);
    assert Front(t, k) !! Ahead(u, id);
    FrontSize(t, clock, k);
  }

  lemma KeptSchedule(t: Table, u: Table, clock: Time, k: nat)
    requires WellTimed(t, clock) && Kept(t, u, k) && k <= |Schedule(t, clock)|
    ensures WellTimed(u, clock) && Schedule(u, clock) == Schedule(t, clock)[k..]
  {
    var s := Schedule(t, clock);
    ScheduleByRank(t, clock);
    forall i | 0 <= i < |s[k..]| ensures s[k..][i] in QueuedIds(u) && Rank(u, s[k..][i]) == i {
      assert s[k..][i] == s[k + i];
      KeptRank(t, u, clock, k, s[k + i]);
    }
    forall id | id in QueuedIds(u) ensures Rank(u, id) < |s[k..]| {
      KeptRank(t, u, clock, k, id);
    }
    RankedIsSchedule(u, clock, s[k..]);
  }

  lemma SettledKept(policy: Policy, t: Table, k: nat, now: Time, gifts: map<TaskId, Gift>)
    requires GiftsOk(policy, t, k, gifts)
    ensures Settled(t, k, now, gifts).Keys == t.Keys && Kept(t, Settled(t, k, now, gifts), k)
    ensures RunningIds(Settled(t, k, now, gifts)) == RunningIds(t)
  {
    var u := Settled(t, k, now, gifts);
    forall id ensures id in QueuedIds(u) <==> id in QueuedIds(t) && Rank(t, id) >= k {
      assert id in u ==> u[id] == SettledRow(t, id, k, now, gifts);
    }
  }

  lemma SettledPosition(t: Table, u: Table, clock: Time, k: nat, now: Time, gifts: map<TaskId, Gift>, id: TaskId)
    requires id in t && t[id].status == Queued && Rank(t, id) >= k > 0 && u == Settled(t, k, now, gifts)
    ensures u[id].queuePosition == Some(Rank(t, id) + 1 - k)
  {
    assert u[id] == SettledRow(t, id, k, now, gifts);
  }

  lemma KeptPositions(t: Table, u: Table, clock: Time, k: nat, now: Time, gifts: map<TaskId, Gift>)
    requires WellTimed(t, clock) && 0 < k <= |Schedule(t, clock)| && Kept(t, u, k)
    requires u == Settled(t, k, now, gifts)
    ensures Numbered(u)
  {
    forall id | id in QueuedIds(u) ensures u[id].queuePosition == Some(Rank(u, id) + 1) {
      assert id in QueuedIds(t) && Rank(t, id) >= k;
      KeptRank(t, u, clock, k, id);
      SettledPosition(t, u, clock, k, now, gifts, id);
    }
  }

  lemma SettledNone(t: Table, now: Time, gifts: map<TaskId, Gift>)
    ensures Settled(t, 0, now, gifts) == t
  {
  }

  lemma SettledPlaced(policy: Policy, t: Table, clock: Time, k: nat, now: Time, gifts: map<TaskId, Gift>)
    requires WellTimed(t, clock) && WellPlaced(t) && k <= |Schedule(t, clock)| && GiftsOk(policy, t, k, gifts)
    requires Kept(t, Settled(t, k, now, gifts), k) && WellTimed(Settled(t, k, now, gifts), clock)
    ensures WellPlaced(Settled(t, k, now, gifts))
  {
    if k == 0 {
      SettledNone(t, now, gifts);
    } else {
      KeptPositions(t, Settled(t, k, now, gifts), clock, k, now, gifts);
      RankedPositions(Settled(t, k, now, gifts), clock);
    }
  }

  /** Settling k tasks leaves the rest of the schedule as the schedule. */
  lemma SettledSpec(policy: Policy, t: Table, clock: Time, k: nat, now: Time, gifts: map<TaskId, Gift>)
    requires WellTimed(t, clock) && k <= |Schedule(t, clock)| && GiftsOk(policy, t, k, gifts)
    ensures var u := Settled(t, k, now, gifts);
            && u.Keys == t.Keys && RunningIds(u) == RunningIds(t) && Kept(t, u, k)
            && WellTimed(u, clock) && Schedule(u, clock) == Schedule(t, clock)[k..]
            && (WellPlaced(t) ==> WellPlaced(u))
            && (forall id :: id in QueuedIds(u) ==> Ahead(u, id) <= Ahead(t, id))
  {
    var u := Settled(t, k, now, gifts);
    SettledKept(policy, t, k, now, gifts);
    KeptSchedule(t, u, clock, k);
    if WellPlaced(t) { SettledPlaced(policy, t, clock, k, now, gifts); }
    forall id | id in QueuedIds(u) ensures Ahead(u, id) <= Ahead(t, id) { KeptRank(t, u, clock, k, id); }
  }

  /** Writing a row that is not queued takes at most its own id off the queue. */
  lemma WriteUnqueued(t: Table, clock: Time, id: TaskId, row: Task)
    requires WellTimed(t, clock) && row.status != Queued
    ensures QueuedIds(t[id := row]) == QueuedIds(t) - {id}
    ensures WellTimed(t[id := row], clock) && (WellPlaced(t) ==> WellPlaced(t[id := row]))
    ensures forall x :: x in QueuedIds(t[id := row]) ==> Ahead(t[id := row], x) <= Ahead(t, x)
  {
    var u := t[id := row];
    forall x | x in QueuedIds(u) ensures Ahead(u, x) <= Ahead(t, x) {
      forall y | y in Ahead(u, x) ensures y in Ahead(t, x) { }
    }
  }

  lemma HeadIsFirst(t: Table, clock: Time, h: TaskId)
    requires WellTimed(t, clock) && IsLeast(ByTime(t), QueuedIds(t), h)
    ensures Rank(t, h) == 0 && Schedule(t, clock) != [] && Schedule(t, clock)[0] == h
  {
    WellTimedLinear(t, clock);
    assert forall x :: x in Ahead(t, h) ==> ByTime(t)(x, h);
    assert Ahead(t, h) == {};
    AtRank(t, clock, h);
  }

  /**
   The front of the queue is worked off: the tasks at the front of the schedule that already have
   a result are settled, and the first one that has none, if any, is the next task.
   */
  ghost predicate Advances(policy: Policy, t: Table, clock: Time, now: Time, u: Table, next: Option<TaskId>,
                           gifts: map<TaskId, Gift>)
    requires WellTimed(t, clock)
  {
    var s := Schedule(t, clock);
    AdvancesBy(policy, t, s, SkipCount(policy, t, s), now, u, next, gifts)
  }

  /** The first k tasks of the schedule s are settled, and the one after them is next. */
  ghost predicate AdvancesBy(policy: Policy, t: Table, s: seq<TaskId>, k: nat, now: Time, u: Table,
                             next: Option<TaskId>, gifts: map<TaskId, Gift>)
  {
    GiftsOk(policy, t, k, gifts) && u == Settled(t, k, now, gifts) && next == NextAfter(s, k)
  }

  function NextAfter(s: seq<TaskId>, k: nat): Option<TaskId> { if k < |s| then Some(s[k]) else None }

  lemma AdvancesNowhere(policy: Policy, t: Table, clock: Time, now: Time)
    requires WellTimed(t, clock) && QueuedIds(t) == {}
    ensures Advances(policy, t, clock, now, t, None, map[])
  {
    ScheduleIs(t, clock, []);
    SettledNone(t, now, map[]);
  }

  lemma AdvancesAtOnce(policy: Policy, t: Table, clock: Time, now: Time, h: TaskId)
    requires WellTimed(t, clock) && IsLeast(ByTime(t), QueuedIds(t), h) && !Reusable(policy, t, h)
    ensures Advances(policy, t, clock, now, t, Some(h), map[])
  {
    HeadIsFirst(t, clock, h);
    SettledNone(t, now, map[]);
  }

  /** A reusable head means there is something to skip. */
  lemma SkipsReusableHead(policy: Policy, t: Table, clock: Time, h: TaskId)
    requires WellTimed(t, clock) && IsLeast(ByTime(t), QueuedIds(t), h) && Reusable(policy, t, h)
    ensures SkipCount(policy, t, Schedule(t, clock)) > 0
  {
    HeadIsFirst(t, clock, h);
  }

  /** One level of the schedulers' recursion: settle the head, then work off the rest. */
  lemma AdvancesStep(policy: Policy, t: Table, clock: Time, now: Time, h: TaskId, d: TaskId, u: Table,
                     next: Option<TaskId>, gifts: map<TaskId, Gift>)
    requires WellTimed(t, clock) && h in QueuedIds(t) && Rank(t, h) == 0
    requires d in t && Chosen(policy, t, t[h].purl, d) && Reusable(policy, t, h)
    requires WellTimed(HeadSettled(t, h, GiftOf(t[d]), now), clock)
    requires Advances(policy, HeadSettled(t, h, GiftOf(t[d]), now), clock, now, u, next, gifts)
    ensures Advances(policy, t, clock, now, u, next, gifts[h := GiftOf(t[d])])
  {
    var v := HeadSettled(t, h, GiftOf(t[d]), now);
    SkipCountStep(policy, t, clock, h, d, now);
    OneMore(policy, t, clock, now, h, d, Schedule(v, clock), SkipCount(policy, v, Schedule(v, clock)), u, next, gifts);
  }

  lemma OneMore(policy: Policy, t: Table, clock: Time, now: Time, h: TaskId, d: TaskId, s: seq<TaskId>, k: nat,
                u: Table, next: Option<TaskId>, gifts: map<TaskId, Gift>)
    requires WellTimed(t, clock) && h in QueuedIds(t) && Rank(t, h) == 0
    requires d in t && Chosen(policy, t, t[h].purl, d)
    requires AdvancesBy(policy, HeadSettled(t, h, GiftOf(t[d]), now), s, k, now, u, next, gifts)
    ensures AdvancesBy(policy, t, [h] + s, k + 1, now, u, next, gifts[h := GiftOf(t[d])])
  {
    GiftsStep(policy, t, clock, h, d, now, k, gifts);
    SettleStep(policy, t, clock, h, GiftOf(t[d]), now, k, gifts);
  }

  // ----- choosing a donor -----

  /** The query order of the donors, ties broken by id. */
  predicate DonorBefore(policy: Policy, t: Table, a: TaskId, b: TaskId) {
    && a in t && b in t
    && match policy
       case QueueManagerPolicy => a < b
       case CeleryPolicy =>
         NullsLast(t[b].completedAt, t[a].completedAt)
         || (t[a].completedAt == t[b].completedAt && a < b)
  }

  lemma ChosenExists(policy: Policy, t: Table, p: string)
    requires HasResult(t, p)
    ensures exists d :: d in t && Chosen(policy, t, p, d)
  {
    var donors := set d | d in t && Donor(t, p, d);
    var less := (a: TaskId, b: TaskId) => DonorBefore(policy, t, a, b);
    var w :| w in t && Donor(t, p, w);
    assert w in donors;
    var d := LeastExists(less, donors);
    forall e | e in t && Donor(t, p, e) ensures e == d || DonorBefore(policy, t, d, e) {
      assert e in donors;
      assert e == d || less(d, e);
    }
    assert Chosen(policy, t, p, d);
  }

  // ----- timeouts -----

  /** is_timed_out for a running row */
  predicate TimedOut(row: Task, now: Time) {
    row.status == Running && row.startedAt.Some? && now > row.startedAt.value + 60 * row.timeoutMinutes
  }

  function TimedOutIds(t: Table, now: Time): set<TaskId> { set id | id in t && TimedOut(t[id], now) }

  function Fail(row: Task, now: Time): Task {
    row.(status := Failed, completedAt := Some(now), queuePosition := None)
  }

  function FailAll(t: Table, ids: set<TaskId>, now: Time): Table {
    map id | id in t :: if id in ids then Fail(t[id], now) else t[id]
  }

  /** Writing back rows that are not queued leaves the rest of the queue as it was. */
  lemma RunningRowsFail(t: Table, clock: Time, ids: set<TaskId>, now: Time)
    requires WellTimed(t, clock) && ids <= RunningIds(t)
    ensures SameQueue(t, FailAll(t, ids, now)) && WellTimed(FailAll(t, ids, now), clock)
    ensures RunningIds(FailAll(t, ids, now)) == RunningIds(t) - ids
  {
    var u := FailAll(t, ids, now);
    forall id ensures id in QueuedIds(u) <==> id in QueuedIds(t) {
      assert id in ids ==> id in RunningIds(t);
    }
    forall id ensures id in RunningIds(u) <==> id in RunningIds(t) - ids {
    }
  }

  /** Renumbering commutes with writing a row that is not and was not queued. */
  lemma RenumberWrite(t: Table, clock: Time, id: TaskId, row: Task)
    requires WellTimed(t, clock) && id in t && t[id].status != Queued && row.status != Queued
    ensures Renumbered(Renumbered(t)[id := row]) == Renumbered(t[id := row])
  {
    var u, v := Renumbered(t)[id := row], t[id := row];
    forall x | x in t ensures Renumbered(u)[x] == Renumbered(v)[x] {
      if x != id && t[x].status == Queued {
        RenumberedKeepsQueue(t);
        WriteSameQueue(t, id, row);
        WriteSameQueue(Renumbered(t), id, row);
        SameRanks(t, Renumbered(t), x);
        SameRanks(t, v, x);
        SameRanks(Renumbered(t), u, x);
      }
    }
  }

  lemma WriteSameQueue(t: Table, id: TaskId, row: Task)
    requires id in t && t[id].status != Queued && row.status != Queued
    ensures SameQueue(t, t[id := row])
  {
  }

  lemma TimedOutAreRunning(t: Table, now: Time)
    ensures TimedOutIds(t, now) <= RunningIds(t)
  {
    forall id | id in TimedOutIds(t, now) ensures id in RunningIds(t) { }
  }

  lemma LaterClock(t: Table, clock: Time, later: Time)
    requires WellTimed(t, clock) && clock <= later
    ensures WellTimed(t, later)
  {
  }
}
