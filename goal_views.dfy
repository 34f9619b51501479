/** The goal pages: every goal page sees only the requesting user's goals;
    the manual freeze and the detail page freeze last week and then evaluate
    achievements; the detail page shows the latest outcomes and chart
    arrays over the whole history. */
module GoalViews {
  import opened Wrappers
  import opened Users
  import opened Dates
  import opened GoalModels
  import opened SessionModels
  import opened AchievementModels
  import opened GoalServices
  import opened OutcomeStores
  import opened AchievementServices

  /** `Goal.objects.filter(user=request.user)`, the queryset of every goal
      view. */
  function UserGoals(goals: map<GoalId, Goal>, user: UserId): (r: map<GoalId, Goal>)
    ensures forall id :: id in r <==> id in goals && goals[id].user == user
    ensures forall id :: id in r ==> r[id] == goals[id]
  {
    map id | id in goals && goals[id].user == user :: goals[id]
  }

  /** The user's goals of two users never overlap. */
  lemma UserGoalsDisjoint(goals: map<GoalId, Goal>, u: UserId, v: UserId)
    requires u != v
    ensures UserGoals(goals, u).Keys * UserGoals(goals, v).Keys == {}
  {
    var a, b := UserGoals(goals, u).Keys, UserGoals(goals, v).Keys;
    forall id | id in a ensures id !in b {
    }
  }

  /** `manual_freeze`: freezes last week for every active goal, then, for a
      signed-in user, evaluates achievements against the outcomes just
      frozen and returns the new awards (shown as messages). */
  method ManualFreeze(store: OutcomeStore, awards: AwardTable, goals: map<GoalId, Goal>,
                      sessions: seq<StudySession>, catalog: seq<Achievement>,
                      user: Option<UserId>, today: Date, now: int)
    returns (newAwards: seq<UserAchievement>)
    requires awards.Valid()
    modifies store, awards
    ensures awards.Valid()
    ensures store.rows == Upserted(old(store.rows), goals, sessions, LastWeekRange(today))
    ensures user.None? ==> newAwards == [] && awards.rows == old(awards.rows)
    ensures user.Some? ==>
      && newAwards == NewAwards(old(awards.rows), catalog,
                                UserStats(sessions, store.rows, goals, user.value, today), user.value, now)
      && awards.rows == old(awards.rows) + newAwards
  {
    var w := LastWeekRange(today);
    var summary := store.Freeze(goals, sessions, Some(w.start), Some(w.end), false, today);
    newAwards := [];
    if user.Some? {
      newAwards := awards.Evaluate(sessions, store.rows, goals, catalog, user.value, today, now);
    }
  }

  /** Because evaluation runs after the freeze, a goal of the user that
      completed last week for the first time counts towards the user's
      completed goals in that evaluation. */
  lemma FreezeFeedsEvaluation(rows: map<OutcomeKey, GoalOutcome>, goals: map<GoalId, Goal>,
                              sessions: seq<StudySession>, user: UserId, today: Date, g: GoalId)
    requires g in ActiveGoals(goals) && goals[g].user == user
    requires OutcomeKey(g, LastWeekRange(today).start) !in rows
    requires ComputeOutcome(g, goals[g], sessions, LastWeekRange(today)).completed
    ensures OutcomeKey(g, LastWeekRange(today).start) in CompletedKeys(Upserted(rows, goals, sessions, LastWeekRange(today)), goals, user)
  {
    var w := LastWeekRange(today);
    UpsertedRows(rows, goals, sessions, w, OutcomeKey(g, w.start));
  }

  // ---------------------------------------------------------------------
  // Detail page

  /** An outcome with its week, as the detail page lists it. */
  datatype OutcomeRow = OutcomeRow(weekStart: Date, outcome: GoalOutcome)

  /** Strictly increasing weeks: each week once, oldest first. */
  predicate Ascending(qs: seq<OutcomeRow>)
  {
    forall i, j :: 0 <= i < j < |qs| ==> qs[i].weekStart < qs[j].weekStart
  }

  /** Every listed row is the stored outcome of `goal` for its week. */
  predicate Stored(qs: seq<OutcomeRow>, rows: map<OutcomeKey, GoalOutcome>, goal: GoalId)
  {
    forall i :: 0 <= i < |qs| ==>
      OutcomeKey(goal, qs[i].weekStart) in rows && rows[OutcomeKey(goal, qs[i].weekStart)] == qs[i].outcome
  }

  /** Every week of `weeks` is listed. */
  predicate Lists(qs: seq<OutcomeRow>, weeks: set<Date>)
  {
    forall d :: d in weeks ==> exists i :: 0 <= i < |qs| && qs[i].weekStart == d
  }

  /** The weeks for which `goal` has a stored outcome. */
  function GoalWeeks(rows: map<OutcomeKey, GoalOutcome>, goal: GoalId): (r: set<Date>)
    ensures forall d :: d in r <==> OutcomeKey(goal, d) in rows
  {
    set k | k in rows && k.goal == goal :: k.weekStart
  }

  /** `goal.outcomes.order_by("week_start")`: the goal's stored outcomes,
      each week once, oldest first. */
  predicate OrderedHistory(qs: seq<OutcomeRow>, rows: map<OutcomeKey, GoalOutcome>, goal: GoalId)
  {
    Ascending(qs) && Stored(qs, rows, goal) && Lists(qs, GoalWeeks(rows, goal))
  }

  /** A set of dates has a member when it is not empty. */
  lemma Pick(weeks: set<Date>) returns (d: Date)
    requires weeks != {}
    ensures d in weeks
  {
    if forall x :: x !in weeks {
      assert false;
    }
    d :| d in weeks;
  }

  /** A non-empty finite set of dates has a latest one. */
  lemma LatestExists(weeks: set<Date>)
    requires weeks != {}
    ensures exists m :: m in weeks && forall x :: x in weeks ==> x <= m
    decreases |weeks|
  {
    var x := Pick(weeks);
    var rest := weeks - {x};
    var top := x;
    if rest != {} {
      LatestExists(rest);
      var m :| m in rest && forall y :: y in rest ==> y <= m;
      if m > x {
        top := m;
      }
    }
    assert top in weeks;
    forall y | y in weeks ensures y <= top {
      if y != x {
        assert y in rest;
      }
    }
  }

  /** The row for week `m` of `goal`, as the query returns it. */
  function RowFor(rows: map<OutcomeKey, GoalOutcome>, goal: GoalId, m: Date): OutcomeRow
    requires OutcomeKey(goal, m) in rows
  {
    OutcomeRow(m, rows[OutcomeKey(goal, m)])
  }

  /** Putting a week earlier than all listed ones in front keeps the list
      ascending and stored. */
  lemma PrependKeepsOrder(qs: seq<OutcomeRow>, rows: map<OutcomeKey, GoalOutcome>, goal: GoalId, m: Date)
    requires Ascending(qs) && Stored(qs, rows, goal)
    requires OutcomeKey(goal, m) in rows
    requires forall i :: 0 <= i < |qs| ==> m < qs[i].weekStart
    ensures Ascending([RowFor(rows, goal, m)] + qs) && Stored([RowFor(rows, goal, m)] + qs, rows, goal)
  {
    var q := [RowFor(rows, goal, m)] + qs;
    assert forall i :: 0 <= i < |qs| ==> q[i + 1] == qs[i];
  }

  /** Putting week `m` in front lists `m` besides the weeks already listed. */
  lemma PrependLists(qs: seq<OutcomeRow>, row: OutcomeRow, taken: set<Date>)
    requires Lists(qs, taken)
    ensures Lists([row] + qs, taken + {row.weekStart})
  {
    var q := [row] + qs;
    forall d | d in taken + {row.weekStart} ensures exists i :: 0 <= i < |q| && q[i].weekStart == d {
      if d == row.weekStart {
        assert q[0].weekStart == d;
      } else {
        var i :| 0 <= i < |qs| && qs[i].weekStart == d;
        assert q[i + 1].weekStart == d;
      }
    }
  }

  /** The weeks still to take are all earlier than the latest one, which is
      now in front. */
  lemma PrependBound(qs: seq<OutcomeRow>, row: OutcomeRow, weeks: set<Date>)
    requires forall d, i :: d in weeks && 0 <= i < |qs| ==> d < qs[i].weekStart
    requires row.weekStart in weeks && forall x :: x in weeks ==> x <= row.weekStart
    ensures forall d, i :: d in weeks - {row.weekStart} && 0 <= i < |[row] + qs| ==> d < ([row] + qs)[i].weekStart
  {
    var q := [row] + qs;
    assert forall i :: 0 <= i < |qs| ==> q[i + 1] == qs[i];
  }

  /** The ordered query, taking the latest remaining week each time and
      putting it in front. */
  method GoalHistory(rows: map<OutcomeKey, GoalOutcome>, goal: GoalId) returns (qs: seq<OutcomeRow>)
    ensures OrderedHistory(qs, rows, goal)
  {
    var weeks := GoalWeeks(rows, goal);
    ghost var all := weeks;
    ghost var taken: set<Date> := {};
    qs := [];
    while weeks != {}
      invariant weeks <= all && taken == all - weeks
      invariant forall d :: d in weeks ==> OutcomeKey(goal, d) in rows
      invariant Ascending(qs) && Stored(qs, rows, goal) && Lists(qs, taken)
      invariant forall d, i :: d in weeks && 0 <= i < |qs| ==> d < qs[i].weekStart
      decreases |weeks|
    {
      LatestExists(weeks);
      var m :| m in weeks && forall x :: x in weeks ==> x <= m;
      var row := RowFor(rows, goal, m);
      PrependKeepsOrder(qs, rows, goal, m);
      PrependLists(qs, row, taken);
      PrependBound(qs, row, weeks);
      qs := [row] + qs;
      weeks := weeks - {m};
      taken := taken + {m};
    }
    assert taken == all;
  }

  /** `qs.reverse()[:26][::-1]`: the last 26 outcomes (all of them when
      there are fewer), still oldest first. */
  function Recent(qs: seq<OutcomeRow>): (r: seq<OutcomeRow>)
    ensures |r| == (if |qs| < 26 then |qs| else 26)
    ensures r == qs[|qs| - |r|..]
  {
    if |qs| <= 26 then qs else qs[|qs| - 26..]
  }

  /** The recent outcomes are the latest weeks of the history, oldest first:
      every week left out is earlier than every week shown. */
  lemma RecentAreLatest(qs: seq<OutcomeRow>, rows: map<OutcomeKey, GoalOutcome>, goal: GoalId)
    requires OrderedHistory(qs, rows, goal)
    ensures forall i, j :: 0 <= i < j < |Recent(qs)| ==> Recent(qs)[i].weekStart < Recent(qs)[j].weekStart
    ensures forall i, j :: 0 <= i < |qs| - |Recent(qs)| && 0 <= j < |Recent(qs)| ==>
      qs[i].weekStart < Recent(qs)[j].weekStart
  {
    var r := Recent(qs);
    var off := |qs| - |r|;
    assert forall j :: 0 <= j < |r| ==> r[j] == qs[off + j];
  }

  /** The chart arrays: one entry per outcome of the whole history. */
  datatype Chart = Chart(
    labels: seq<Date>,
    hoursCompleted: seq<Option<nat>>,    // tenths of an hour
    hoursTarget: seq<Option<nat>>,       // hundredths of an hour
    lessonsCompleted: seq<Option<nat>>,
    lessonsTarget: seq<Option<nat>>)

  /** The five list comprehensions over `qs`; a missing target stays
      missing. */
  function ChartOf(qs: seq<OutcomeRow>): (c: Chart)
    ensures |c.labels| == |qs| && |c.hoursCompleted| == |qs| && |c.hoursTarget| == |qs|
    ensures |c.lessonsCompleted| == |qs| && |c.lessonsTarget| == |qs|
    ensures forall i :: 0 <= i < |qs| ==>
      && c.labels[i] == qs[i].weekStart
      && c.hoursCompleted[i] == Some(qs[i].outcome.hoursCompleted)
      && c.hoursTarget[i] == qs[i].outcome.hoursTarget
      && c.lessonsCompleted[i] == Some(qs[i].outcome.lessonsCompleted)
      && c.lessonsTarget[i] == qs[i].outcome.lessonsTarget
  {
    if qs == [] then Chart([], [], [], [], [])
    else
      var c := ChartOf(qs[..|qs| - 1]);
      var o := qs[|qs| - 1];
      Chart(c.labels + [o.weekStart], c.hoursCompleted + [Some(o.outcome.hoursCompleted)],
            c.hoursTarget + [o.outcome.hoursTarget], c.lessonsCompleted + [Some(o.outcome.lessonsCompleted)],
            c.lessonsTarget + [o.outcome.lessonsTarget])
  }

  /** The chart covers every recent outcome, and more: its last entries are
      the recent outcomes' weeks. */
  lemma ChartCoversRecent(qs: seq<OutcomeRow>)
    ensures |Recent(qs)| <= |ChartOf(qs).labels|
    ensures forall j :: 0 <= j < |Recent(qs)| ==>
      ChartOf(qs).labels[|qs| - |Recent(qs)| + j] == Recent(qs)[j].weekStart
  {
  }

  /** What the detail page adds to its context. */
  datatype DetailContext = DetailContext(outcomes: seq<OutcomeRow>, chart: Chart, newAwards: seq<UserAchievement>)

  /** `GoalDetailView` for `goal`: not found (and nothing done) unless the
      goal is the user's; otherwise last week is frozen, achievements are
      evaluated on the frozen outcomes, and only then is the goal's history
      read for the outcome list and the chart. */
  method GoalDetail(store: OutcomeStore, awards: AwardTable, goals: map<GoalId, Goal>,
                    sessions: seq<StudySession>, catalog: seq<Achievement>,
                    user: UserId, goal: GoalId, today: Date, now: int)
    returns (ctx: Option<DetailContext>)
    requires awards.Valid()
    modifies store, awards
    ensures awards.Valid()
    ensures goal !in UserGoals(goals, user) ==>
      ctx.None? && store.rows == old(store.rows) && awards.rows == old(awards.rows)
    ensures goal in UserGoals(goals, user) ==>
      && store.rows == Upserted(old(store.rows), goals, sessions, LastWeekRange(today))
      && ctx.Some?
      && ctx.value.newAwards == NewAwards(old(awards.rows), catalog,
                                          UserStats(sessions, store.rows, goals, user, today), user, now)
      && awards.rows == old(awards.rows) + ctx.value.newAwards
      && exists qs :: OrderedHistory(qs, store.rows, goal)
           && ctx.value.outcomes == Recent(qs) && ctx.value.chart == ChartOf(qs)
  {
    if goal !in UserGoals(goals, user) {
      return None;
    }
    var w := LastWeekRange(today);
    var summary := store.Freeze(goals, sessions, Some(w.start), Some(w.end), false, today);
    var awarded := awards.Evaluate(sessions, store.rows, goals, catalog, user, today, now);
    var qs := GoalHistory(store.rows, goal);
    ctx := Some(DetailContext(Recent(qs), ChartOf(qs), awarded));
  }
}
