/** The goal-outcome table and `freeze_weekly_outcomes`, which writes one
    frozen row per active goal and week. */
module OutcomeStores {
  import opened Wrappers
  import opened Dates
  import opened GoalModels
  import opened SessionModels
  import opened GoalServices

  lemma MoveOne(todo: set<GoalId>, done: set<GoalId>, g: GoalId, all: set<GoalId>)
    requires g in todo && todo <= all && done == all - todo
    ensures todo - {g} <= all && done + {g} == all - (todo - {g})
    ensures |todo - {g}| < |todo|
  {
  }

  /** The result of `freeze_weekly_outcomes`. */
  datatype FreezeSummary = FreezeSummary(created: nat, updated: nat, weekStart: Option<Date>, weekEnd: Option<Date>)

  /** The goal-outcome table, keyed by (goal, week start). */
  class OutcomeStore {
    var rows: map<OutcomeKey, GoalOutcome>

    constructor ()
      ensures rows == map[]
    {
      rows := map[];
    }

    /** `freeze_weekly_outcomes(week_start, week_end, dry_run)` with the
        London-local date `today` passed in. */
    method Freeze(goals: map<GoalId, Goal>, sessions: seq<StudySession>,
                  weekStart: Option<Date>, weekEnd: Option<Date>, dryRun: bool, today: Date)
      returns (r: FreezeSummary)
      modifies this
      ensures Skipped(today, weekStart, weekEnd) ==>
        r == FreezeSummary(0, 0, None, None) && rows == old(rows)
      ensures !Skipped(today, weekStart, weekEnd) ==>
        var w := EffectiveWindow(today, weekStart, weekEnd);
        && r.weekStart == Some(w.start) && r.weekEnd == Some(w.end)
        && (dryRun ==> r.created == 0 && r.updated == 0 && rows == old(rows))
        && (!dryRun ==>
              && rows == Upserted(old(rows), goals, sessions, w)
              && r.created == |Inserted(old(rows), goals, w)|
              && r.updated == |Overwritten(old(rows), goals, w)|)
    {
      if Skipped(today, weekStart, weekEnd) {
        return FreezeSummary(0, 0, None, None);
      }
      var w := EffectiveWindow(today, weekStart, weekEnd);
      var created, updated := 0, 0;
      if !dryRun {
        created, updated := UpsertActive(goals, sessions, w);
      }
      return FreezeSummary(created, updated, Some(w.start), Some(w.end));
    }

    /** `update_or_create`: writes `row` under `key` and reports whether the
        key was new. */
    method UpdateOrCreate(key: OutcomeKey, row: GoalOutcome) returns (createdFlag: bool)
      modifies this
      ensures rows == old(rows)[key := row]
      ensures createdFlag <==> key !in old(rows)
    {
      createdFlag := key !in rows;
      rows := rows[key := row];
    }

    /** The freeze loop: upserts one outcome row per active goal and counts
        the rows created and the rows updated. */
    method UpsertActive(goals: map<GoalId, Goal>, sessions: seq<StudySession>, w: Window)
      returns (created: nat, updated: nat)
      modifies this
      ensures rows == Upserted(old(rows), goals, sessions, w)
      ensures created == |Inserted(old(rows), goals, w)|
      ensures updated == |Overwritten(old(rows), goals, w)|
    {
      created, updated := 0, 0;
      var todo := ActiveGoals(goals);
      ghost var done: set<GoalId> := {};
      assert rows == old(rows) + FrozenAmong(done, goals, sessions, w);
      while todo != {}
        invariant todo <= ActiveGoals(goals) && done == ActiveGoals(goals) - todo
        invariant rows == old(rows) + FrozenAmong(done, goals, sessions, w)
        invariant created == |InsertedAmong(done, old(rows), w)|
        invariant updated == |OverwrittenAmong(done, old(rows), w)|
        decreases |todo|
      {
        var g :| g in todo;
        UpsertStep(old(rows), done, g, goals, sessions, w);
        var createdFlag := UpdateOrCreate(OutcomeKey(g, w.start), ComputeOutcome(g, goals[g], sessions, w));
        if createdFlag {
          created := created + 1;
        } else {
          updated := updated + 1;
        }
        MoveOne(todo, done, g, ActiveGoals(goals));
        todo := todo - {g};
        done := done + {g};
      }
      assert done == ActiveGoals(goals);
    }
  }
}
