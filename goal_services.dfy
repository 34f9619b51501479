/** Week windows and the weekly outcome freezer: every active goal's study
    sessions in a Monday-to-Sunday window become one frozen outcome row,
    upserted under (goal, week start). */
module GoalServices {
  import opened Wrappers
  import opened Dates
  import opened GoalModels
  import opened SessionModels
  import opened Users
  import opened CourseModels

  /** An inclusive date window. */
  datatype Window = Window(start: Date, end: Date)

  /** `_monday_of_week(d)`: the Monday on or before `d`. */
  function MondayOf(d: Date): (m: Date)
    ensures Weekday(m) == 0
    ensures m <= d < m + 7
  {
    d - Weekday(d)
  }

  /** `_sunday_of_week(monday)`: six days after the given Monday. */
  function SundayOf(monday: Date): (s: Date)
    ensures Weekday(monday) == 0 ==> Weekday(s) == 6
    ensures s == monday + 6
  {
    WeekdayShift(monday, 0);
    assert (monday + 6 + 6) % 7 == ((monday + 6) % 7 + 6) % 7;
    monday + 6
  }

  /** `last_week_range(today)`: the Monday-to-Sunday week holding `today - 7`. */
  function LastWeekRange(today: Date): (w: Window)
    ensures Weekday(w.start) == 0 && w.end == w.start + 6
    ensures w.start <= today - 7 < w.start + 7
  {
    var start := MondayOf(today - 7);
    Window(start, SundayOf(start))
  }

  /** Last week's window is the week just before the one holding `today`. */
  lemma LastWeekPrecedesThisWeek(today: Date)
    ensures LastWeekRange(today).start == MondayOf(today) - 7
    ensures LastWeekRange(today).end == MondayOf(today) - 1
  {
    var a, b := LastWeekRange(today).start, MondayOf(today);
    assert (a + 6) % 7 == 0 && (b + 6) % 7 == 0;
    var qa, qb := (a + 6) / 7, (b + 6) / 7;
    assert b - a == 7 * (qb - qa);
  }

  /** Whether a session counts towards `goal` in window `w` (both ends
      inclusive, on the session's start date). */
  predicate InGoalWindow(s: StudySession, goal: GoalId, w: Window)
  {
    s.goal == Some(goal) && w.start <= s.startedOn <= w.end
  }

  /** The sessions of `goal` started within `w`, in table order: every such
      session as often as the table holds it, and nothing else. */
  function GoalSessions(sessions: seq<StudySession>, goal: GoalId, w: Window): (r: seq<StudySession>)
    ensures |r| <= |sessions|
    ensures forall s :: s in r <==> s in sessions && InGoalWindow(s, goal, w)
    ensures forall s :: multiset(r)[s] == if InGoalWindow(s, goal, w) then multiset(sessions)[s] else 0
  {
    if sessions == [] then []
    else
      assert sessions == [sessions[0]] + sessions[1..];
      var rest := GoalSessions(sessions[1..], goal, w);
      if InGoalWindow(sessions[0], goal, w) then [sessions[0]] + rest else rest
  }

  lemma {:induction false} NoGoalSessions(sessions: seq<StudySession>, goal: GoalId, w: Window)
    requires forall s :: s in sessions ==> !InGoalWindow(s, goal, w)
    ensures GoalSessions(sessions, goal, w) == []
  {
    if sessions != [] {
      assert sessions[0] in sessions;
      NoGoalSessions(sessions[1..], goal, w);
    }
  }

  /** `Sum("duration_minutes")`, with 0 for no rows. */
  function SumMinutes(sessions: seq<StudySession>): (m: nat)
    ensures forall s :: s in sessions ==> s.durationMinutes <= m
  {
    if sessions == [] then 0 else sessions[0].durationMinutes + SumMinutes(sessions[1..])
  }

  lemma {:induction false} SumMinutesAppend(a: seq<StudySession>, b: seq<StudySession>)
    ensures SumMinutes(a + b) == SumMinutes(a) + SumMinutes(b)
  {
    if a == [] {
      assert a + b == b;
    } else {
      assert (a + b)[1..] == a[1..] + b;
      SumMinutesAppend(a[1..], b);
    }
  }

  /** Minutes as hours rounded half-up to one decimal, in tenths of an hour:
      `t` tenths is the nearest tenth to `minutes / 60`, ties going up. */
  function HoursInTenths(minutes: nat): (t: nat)
    ensures 6 * t <= minutes + 3 < 6 * t + 6
  {
    (minutes + 3) / 6
  }

  /** `hours >= hours_target` with hours in tenths and the target in
      hundredths: the same comparison as on the two decimal values. */
  predicate MeetsHoursTarget(hoursTenths: nat, targetHundredths: nat)
    ensures MeetsHoursTarget(hoursTenths, targetHundredths)
            <==> hoursTenths as real / 10.0 >= targetHundredths as real / 100.0
  {
    10 * hoursTenths >= targetHundredths
  }

  /** The outcome frozen for one goal and window (goals/services.py, loop body). */
  function ComputeOutcome(id: GoalId, g: Goal, sessions: seq<StudySession>, w: Window): (o: GoalOutcome)
    ensures var minutes := SumMinutes(GoalSessions(sessions, id, w));
      6 * o.hoursCompleted <= minutes + 3 < 6 * o.hoursCompleted + 6
    ensures o.lessonsCompleted == |GoalSessions(sessions, id, w)|
    ensures o.hoursTarget == g.weeklyHoursTarget && o.lessonsTarget == g.weeklyLessonsTarget
    ensures o.weekEnd == w.end
    ensures o.completed <==>
      (g.weeklyHoursTarget.Some? && MeetsHoursTarget(o.hoursCompleted, g.weeklyHoursTarget.value))
      || (g.weeklyLessonsTarget.Some? && o.lessonsCompleted >= g.weeklyLessonsTarget.value)
  {
    var window := GoalSessions(sessions, id, w);
    var hours := HoursInTenths(SumMinutes(window));
    var lessons := |window|;
    var completed :=
      (g.weeklyHoursTarget.Some? && MeetsHoursTarget(hours, g.weeklyHoursTarget.value))
      || (g.weeklyLessonsTarget.Some? && lessons >= g.weeklyLessonsTarget.value);
    GoalOutcome(hours, lessons, g.weeklyHoursTarget, g.weeklyLessonsTarget, completed, w.end)
  }

  /** A goal with no session in the window freezes to 0.0 hours and 0 lessons,
      and counts as completed only through a zero target. */
  lemma {:induction false} NoSessionsFreezeToZero(id: GoalId, g: Goal, sessions: seq<StudySession>, w: Window)
    requires forall s :: s in sessions ==> !InGoalWindow(s, id, w)
    ensures ComputeOutcome(id, g, sessions, w).hoursCompleted == 0
    ensures ComputeOutcome(id, g, sessions, w).lessonsCompleted == 0
    ensures ComputeOutcome(id, g, sessions, w).completed <==>
      (g.weeklyHoursTarget == Some(0) || g.weeklyLessonsTarget == Some(0))
  {
    NoGoalSessions(sessions, id, w);
  }

  /** On Monday 2025-11-03, last week runs from Monday 2025-10-27 to Sunday
      2025-11-02. */
  lemma LastWeekExample()
    ensures LastWeekRange(FromYmd(2025, 11, 3)) == Window(FromYmd(2025, 10, 27), FromYmd(2025, 11, 2))
  {
    JanFirstClosedForm(2025);
    assert JanFirst(2025) == 739252;
    assert !IsLeap(2025);
    assert DaysBeforeMonth(2025, 11) == 304 && DaysBeforeMonth(2025, 10) == 273;
    assert FromYmd(2025, 11, 3) == 739558;
    assert Weekday(739551) == 0;
    assert MondayOf(739551) == 739551;
    assert FromYmd(2025, 10, 27) == 739551 && FromYmd(2025, 11, 2) == 739557;
  }

  /** The worked example of a freeze: sessions of 90 and 30 minutes on the
      first and third day of the window freeze to 2.0 hours and 2 lessons,
      which completes a 1.50-hour weekly target. */
  lemma FreezeExample(user: UserId, course: CourseId, id: GoalId, w: Window)
    requires w.start + 2 <= w.end
    ensures var g := NewGoal(user, Some(150), None, None).(course := Some(course));
      var ss := [StudySession(user, course, Some(id), w.start, w.start, 90),
                 StudySession(user, course, Some(id), w.start + 2, w.start + 2, 30)];
      && ComputeOutcome(id, g, ss, w).hoursCompleted == 20
      && ComputeOutcome(id, g, ss, w).lessonsCompleted == 2
      && ComputeOutcome(id, g, ss, w).completed
  {
    var ss := [StudySession(user, course, Some(id), w.start, w.start, 90),
               StudySession(user, course, Some(id), w.start + 2, w.start + 2, 30)];
    assert GoalSessions(ss, id, w) == ss;
    assert ss[1..] == [ss[1]] && ss[1..][1..] == [];
    assert SumMinutes([ss[1]]) == 30;
    assert SumMinutes(ss) == 120;
    assert HoursInTenths(120) == 20;
  }

  /** Whether the freeze is skipped: without both bounds it only runs on a
      (London-local) Monday. */
  predicate Skipped(today: Date, weekStart: Option<Date>, weekEnd: Option<Date>)
  {
    Weekday(today) != 0 && !(weekStart.Some? && weekEnd.Some?)
  }

  /** The window frozen: the given bounds when both are present, else last week. */
  function EffectiveWindow(today: Date, weekStart: Option<Date>, weekEnd: Option<Date>): (w: Window)
    ensures weekStart.Some? && weekEnd.Some? ==> w == Window(weekStart.value, weekEnd.value)
    ensures !(weekStart.Some? && weekEnd.Some?) ==> w == LastWeekRange(today)
  {
    if weekStart.Some? && weekEnd.Some? then Window(weekStart.value, weekEnd.value)
    else LastWeekRange(today)
  }

  function ActiveGoals(goals: map<GoalId, Goal>): set<GoalId>
  {
    set g | g in goals && goals[g].isActive
  }

  /** The rows written for the goals in `ids`: one per goal, keyed by the
      window's start. */
  function FrozenAmong(ids: set<GoalId>, goals: map<GoalId, Goal>, sessions: seq<StudySession>, w: Window): map<OutcomeKey, GoalOutcome>
    requires ids <= goals.Keys
  {
    map g | g in ids :: OutcomeKey(g, w.start) := ComputeOutcome(g, goals[g], sessions, w)
  }

  /** The goals in `ids` whose row for the window is not yet in `rows`. */
  function InsertedAmong(ids: set<GoalId>, rows: map<OutcomeKey, GoalOutcome>, w: Window): set<GoalId>
  {
    set g | g in ids && OutcomeKey(g, w.start) !in rows
  }

  /** The goals in `ids` whose row for the window is already in `rows`. */
  function OverwrittenAmong(ids: set<GoalId>, rows: map<OutcomeKey, GoalOutcome>, w: Window): set<GoalId>
  {
    set g | g in ids && OutcomeKey(g, w.start) in rows
  }

  /** The outcome rows one freeze writes: one per active goal. */
  function FrozenRows(goals: map<GoalId, Goal>, sessions: seq<StudySession>, w: Window): map<OutcomeKey, GoalOutcome>
  {
    FrozenAmong(ActiveGoals(goals), goals, sessions, w)
  }

  /** The outcome table after the freeze's upserts. */
  function Upserted(rows: map<OutcomeKey, GoalOutcome>, goals: map<GoalId, Goal>,
                    sessions: seq<StudySession>, w: Window): map<OutcomeKey, GoalOutcome>
  {
    rows + FrozenRows(goals, sessions, w)
  }

  /** Active goals whose row is inserted (not yet in `rows`). */
  function Inserted(rows: map<OutcomeKey, GoalOutcome>, goals: map<GoalId, Goal>, w: Window): set<GoalId>
  {
    InsertedAmong(ActiveGoals(goals), rows, w)
  }

  /** Active goals whose row is overwritten (already in `rows`). */
  function Overwritten(rows: map<OutcomeKey, GoalOutcome>, goals: map<GoalId, Goal>, w: Window): set<GoalId>
  {
    OverwrittenAmong(ActiveGoals(goals), rows, w)
  }

  /** Rows written for other goals never use goal `g`'s key. */
  lemma FrozenKeyFresh(ids: set<GoalId>, g: GoalId, goals: map<GoalId, Goal>, sessions: seq<StudySession>, w: Window)
    requires ids <= goals.Keys && g !in ids
    ensures OutcomeKey(g, w.start) !in FrozenAmong(ids, goals, sessions, w)
  {
  }

  /** Freezing one more goal adds exactly that goal's row. */
  lemma FrozenAmongAdd(ids: set<GoalId>, g: GoalId, goals: map<GoalId, Goal>, sessions: seq<StudySession>, w: Window)
    requires ids <= goals.Keys && g in goals
    ensures FrozenAmong(ids + {g}, goals, sessions, w)
         == FrozenAmong(ids, goals, sessions, w)[OutcomeKey(g, w.start) := ComputeOutcome(g, goals[g], sessions, w)]
  {
    var lhs := FrozenAmong(ids + {g}, goals, sessions, w);
    var rhs := FrozenAmong(ids, goals, sessions, w)[OutcomeKey(g, w.start) := ComputeOutcome(g, goals[g], sessions, w)];
    forall k | k in lhs ensures k in rhs && lhs[k] == rhs[k] {
      if k.goal != g {
        assert k.goal in ids;
      }
    }
    forall k | k in rhs ensures k in lhs {
      assert k.goal in ids + {g};
    }
    assert lhs.Keys == rhs.Keys;
  }

  lemma UnionUpdate(a: map<OutcomeKey, GoalOutcome>, b: map<OutcomeKey, GoalOutcome>, k: OutcomeKey, v: GoalOutcome)
    ensures (a + b)[k := v] == a + b[k := v]
  {
  }

  /** One loop step of the freeze: upserting goal `g`'s row into the table
      built so far gives the table with `g` frozen too, and bumps exactly one
      of the two counts. */
  lemma UpsertStep(rows: map<OutcomeKey, GoalOutcome>, done: set<GoalId>, g: GoalId,
                   goals: map<GoalId, Goal>, sessions: seq<StudySession>, w: Window)
    requires done <= goals.Keys && g in goals && g !in done
    ensures (rows + FrozenAmong(done, goals, sessions, w))[OutcomeKey(g, w.start) := ComputeOutcome(g, goals[g], sessions, w)]
         == rows + FrozenAmong(done + {g}, goals, sessions, w)
    ensures OutcomeKey(g, w.start) in rows + FrozenAmong(done, goals, sessions, w) ==>
      && |InsertedAmong(done + {g}, rows, w)| == |InsertedAmong(done, rows, w)|
      && |OverwrittenAmong(done + {g}, rows, w)| == |OverwrittenAmong(done, rows, w)| + 1
    ensures OutcomeKey(g, w.start) !in rows + FrozenAmong(done, goals, sessions, w) ==>
      && |InsertedAmong(done + {g}, rows, w)| == |InsertedAmong(done, rows, w)| + 1
      && |OverwrittenAmong(done + {g}, rows, w)| == |OverwrittenAmong(done, rows, w)|
  {
    var key := OutcomeKey(g, w.start);
    FrozenKeyFresh(done, g, goals, sessions, w);
    FrozenAmongAdd(done, g, goals, sessions, w);
    CountStep(done, g, rows, w);
    UnionUpdate(rows, FrozenAmong(done, goals, sessions, w), key, ComputeOutcome(g, goals[g], sessions, w));
  }

  /** One more goal joins the inserted or the overwritten goals, according to
      the table before the freeze. */
  lemma CountStep(ids: set<GoalId>, g: GoalId, rows: map<OutcomeKey, GoalOutcome>, w: Window)
    requires g !in ids
    ensures OutcomeKey(g, w.start) !in rows ==>
      && InsertedAmong(ids + {g}, rows, w) == InsertedAmong(ids, rows, w) + {g}
      && OverwrittenAmong(ids + {g}, rows, w) == OverwrittenAmong(ids, rows, w)
    ensures OutcomeKey(g, w.start) in rows ==>
      && InsertedAmong(ids + {g}, rows, w) == InsertedAmong(ids, rows, w)
      && OverwrittenAmong(ids + {g}, rows, w) == OverwrittenAmong(ids, rows, w) + {g}
    ensures g !in InsertedAmong(ids, rows, w) && g !in OverwrittenAmong(ids, rows, w)
  {
  }

  /** After a freeze every active goal has exactly its computed row for the
      window's start; every other row is untouched, and no row is removed. */
  lemma UpsertedRows(rows: map<OutcomeKey, GoalOutcome>, goals: map<GoalId, Goal>,
                     sessions: seq<StudySession>, w: Window, k: OutcomeKey)
    ensures k in Upserted(rows, goals, sessions, w) <==> k in rows || (k.weekStart == w.start && k.goal in ActiveGoals(goals))
    ensures k.weekStart == w.start && k.goal in ActiveGoals(goals) ==>
      Upserted(rows, goals, sessions, w)[k] == ComputeOutcome(k.goal, goals[k.goal], sessions, w)
    ensures !(k.weekStart == w.start && k.goal in ActiveGoals(goals)) && k in rows ==>
      Upserted(rows, goals, sessions, w)[k] == rows[k]
  {
    var f := FrozenRows(goals, sessions, w);
    if k in f {
      var g :| g in ActiveGoals(goals) && OutcomeKey(g, w.start) == k;
    }
    if k.weekStart == w.start && k.goal in ActiveGoals(goals) {
      assert k == OutcomeKey(k.goal, w.start);
    }
  }

  /** Every active goal is counted once, as inserted or as overwritten. */
  lemma CreatedPlusUpdated(rows: map<OutcomeKey, GoalOutcome>, goals: map<GoalId, Goal>, w: Window)
    ensures |Inserted(rows, goals, w)| + |Overwritten(rows, goals, w)| == |ActiveGoals(goals)|
  {
    var a, b := Inserted(rows, goals, w), Overwritten(rows, goals, w);
    assert a + b == ActiveGoals(goals);
    assert a * b == {};
  }

  /** Freezing the same window twice over unchanged data changes nothing the
      second time, inserts no row, and overwrites one row per active goal. */
  lemma {:induction false} FreezeIdempotent(rows: map<OutcomeKey, GoalOutcome>, goals: map<GoalId, Goal>,
                                            sessions: seq<StudySession>, w: Window)
    ensures Upserted(Upserted(rows, goals, sessions, w), goals, sessions, w) == Upserted(rows, goals, sessions, w)
    ensures Inserted(Upserted(rows, goals, sessions, w), goals, w) == {}
    ensures Overwritten(Upserted(rows, goals, sessions, w), goals, w) == ActiveGoals(goals)
  {
    var once := Upserted(rows, goals, sessions, w);
    forall g | g in ActiveGoals(goals) ensures OutcomeKey(g, w.start) in once {
      UpsertedRows(rows, goals, sessions, w, OutcomeKey(g, w.start));
    }
  }
}
