/**
 The task table as the schedulers' database: the renumbering loop both of them
 run, and the unique constraint that a one-to-one report column enforces.
 */
module TaskStore {
  import opened Wrappers
  import opened Ordering
  import opened TaskTable

  class TaskStore {
    var rows: Table

    /** Whether the database enforces that no two rows share a report. */
    const oneToOne: bool

    constructor (oneToOne: bool)
      ensures rows == map[] && this.oneToOne == oneToOne
    {
      rows := map[];
      this.oneToOne := oneToOne;
    }

    /** Saving `row` at `id` breaks the unique constraint on `report`. */
    predicate Conflicts(id: TaskId, row: Task)
      reads this
    {
      oneToOne && row.report.Some? && exists o :: o in rows && o != id && rows[o].report == row.report
    }

    method UpdateQueuePositions(ghost clock: Time)
      requires WellTimed(rows, clock)
      modifies this`rows
      ensures rows == Renumbered(old(rows))
    {
      ghost var t := rows;
      WellTimedLinear(rows, clock);
      var queue := SortSet(ByTime(rows), QueuedIds(rows));
      RanksBounded(t, clock);
      for index := 0 to |queue|
        invariant rows.Keys == t.Keys
        invariant forall id :: id in t ==>
                    rows[id] == if id in QueuedIds(t) && Rank(t, id) < index
                                then t[id].(queuePosition := Some(Rank(t, id) + 1)) else t[id]
      {
        var task := queue[index];
        OnlyAtRank(t, clock, index);
        rows := rows[task := rows[task].(queuePosition := Some(index + 1))];
      }
      forall id | id in t ensures rows[id] == Renumbered(t)[id] {
        assert t[id].status == Queued <==> id in QueuedIds(t);
      }
    }
  }
}
