/** The statistics behind achievements (lifetime minutes, completed weekly
    outcomes, the weekly study streak), the rule engine deciding eligibility,
    and the evaluation that awards newly earned achievements. */
module AchievementServices {
  import opened Wrappers
  import opened Users
  import opened Dates
  import opened GoalModels
  import opened SessionModels
  import opened AchievementModels
  import GoalServices

  // ---------------------------------------------------------------------
  // Lifetime minutes

  /** `Sum("duration_minutes")` over the user's sessions, 0 when there are
      none: part of the whole table's total, and all of it when every session
      is the user's. */
  function UserMinutes(sessions: seq<StudySession>, user: UserId): (m: nat)
    ensures m <= GoalServices.SumMinutes(sessions)
    ensures (forall s :: s in sessions ==> s.user == user) ==> m == GoalServices.SumMinutes(sessions)
  {
    if sessions == [] then 0
    else (if sessions[0].user == user then sessions[0].durationMinutes else 0) + UserMinutes(sessions[1..], user)
  }

  /** The minute total is additive over the session table. */
  lemma {:induction false} UserMinutesAppend(a: seq<StudySession>, b: seq<StudySession>, user: UserId)
    ensures UserMinutes(a + b, user) == UserMinutes(a, user) + UserMinutes(b, user)
  {
    if a == [] {
      assert a + b == b;
    } else {
      assert (a + b)[1..] == a[1..] + b;
      UserMinutesAppend(a[1..], b, user);
    }
  }

  /** Only the user's own sessions count: sessions of others add nothing, and
      a user without sessions has a total of 0. */
  lemma {:induction false} OthersSessionsAddNothing(sessions: seq<StudySession>, user: UserId)
    requires forall s :: s in sessions ==> s.user != user
    ensures UserMinutes(sessions, user) == 0
  {
    if sessions != [] {
      assert sessions[0] in sessions;
      OthersSessionsAddNothing(sessions[1..], user);
    }
  }

  // ---------------------------------------------------------------------
  // Completed outcomes

  /** The outcome rows of the user's goals marked completed. */
  function CompletedKeys(outcomes: map<OutcomeKey, GoalOutcome>, goals: map<GoalId, Goal>, user: UserId): set<OutcomeKey>
  {
    set k | k in outcomes && k.goal in goals && goals[k.goal].user == user && outcomes[k].completed
  }

  lemma SubsetSize<T>(a: set<T>, b: set<T>)
    requires a <= b
    ensures |a| <= |b|
  {
    assert b == a + (b - a);
  }

  /** `GoalOutcome.objects.filter(goal__user=user, completed=True).count()`. */
  function CompletedCount(outcomes: map<OutcomeKey, GoalOutcome>, goals: map<GoalId, Goal>, user: UserId): (n: nat)
    ensures n <= |outcomes|
  {
    SubsetSize(CompletedKeys(outcomes, goals, user), outcomes.Keys);
    |CompletedKeys(outcomes, goals, user)|
  }

  /** Freezing a completed week for one of the user's goals, under a key not
      yet in the table, raises the count by exactly one. */
  lemma CompletedCountGrows(outcomes: map<OutcomeKey, GoalOutcome>, goals: map<GoalId, Goal>, user: UserId,
                            k: OutcomeKey, o: GoalOutcome)
    requires k !in outcomes && k.goal in goals && goals[k.goal].user == user && o.completed
    ensures CompletedCount(outcomes[k := o], goals, user) == CompletedCount(outcomes, goals, user) + 1
  {
    assert CompletedKeys(outcomes[k := o], goals, user) == CompletedKeys(outcomes, goals, user) + {k};
  }

  // ---------------------------------------------------------------------
  // Weekly streak

  /** The ISO weeks holding at least one of the user's sessions, by the
      session's UTC date; empty exactly when the user has no session (the
      `if weeks_with_study` guard). */
  function StudyWeeks(sessions: seq<StudySession>, user: UserId): (weeks: set<IsoWeek>)
    ensures weeks == {} <==> forall s :: s in sessions ==> s.user != user
  {
    var weeks := set s | s in sessions && s.user == user :: IsoCalendar(s.startedUtcOn);
    assert (exists s :: s in sessions && s.user == user) ==> weeks != {} by {
      if exists s :: s in sessions && s.user == user {
        var s :| s in sessions && s.user == user;
        assert IsoCalendar(s.startedUtcOn) in weeks;
      }
    }
    weeks
  }

  /** The ISO week `i` weeks before the one holding `d`, one week at a time. */
  function WeekBack(d: Date, i: nat): IsoWeek
    decreases i
  {
    if i == 0 then IsoCalendar(d) else WeekBack(d - 7, i - 1)
  }

  /** Going back `i` weeks one at a time lands on the week `7 * i` days
      earlier. */
  lemma {:induction false} WeekBackIsDaysEarlier(d: Date, i: nat, e: Date)
    requires e == d - 7 * i
    ensures WeekBack(d, i) == IsoCalendar(e)
    decreases i
  {
    if i > 0 {
      WeekBackIsDaysEarlier(d - 7, i - 1, e);
    }
  }

  /** The weeks of `weeks` that start on or before `d`: what a backward walk
      from `d` can still visit. */
  function WeeksUpTo(weeks: set<IsoWeek>, d: Date): set<IsoWeek>
  {
    set w | w in weeks && IsoMonday(w) <= d
  }

  /** Stepping back a week from a studied week leaves fewer weeks to visit. */
  lemma WeeksUpToShrinks(weeks: set<IsoWeek>, d: Date)
    requires IsoCalendar(d) in weeks
    ensures |WeeksUpTo(weeks, d - 7)| < |WeeksUpTo(weeks, d)|
  {
    var k := IsoCalendar(d);
    IsoMondayOfDate(d);
    var a, b := WeeksUpTo(weeks, d - 7), WeeksUpTo(weeks, d);
    assert IsoMonday(k) > d - 7;
    assert k in b && k !in a;
    assert a <= b;
    assert b == a + (b - a);
    assert k in b - a;
  }

  /** The number of consecutive studied ISO weeks ending at the week of `d`. */
  function StreakFrom(weeks: set<IsoWeek>, d: Date): (n: nat)
    ensures n <= |WeeksUpTo(weeks, d)|
    decreases |WeeksUpTo(weeks, d)|
  {
    if IsoCalendar(d) in weeks then
      WeeksUpToShrinks(weeks, d);
      1 + StreakFrom(weeks, d - 7)
    else 0
  }

  /** Each of the `n` weeks back from `d` inside the streak was studied. */
  lemma {:induction false} StreakWeekStudied(weeks: set<IsoWeek>, d: Date, i: nat)
    requires i < StreakFrom(weeks, d)
    ensures WeekBack(d, i) in weeks
    decreases i
  {
    assert IsoCalendar(d) in weeks;
    if i > 0 {
      assert StreakFrom(weeks, d) == 1 + StreakFrom(weeks, d - 7);
      StreakWeekStudied(weeks, d - 7, i - 1);
      assert WeekBack(d, i) == WeekBack(d - 7, i - 1);
    }
  }

  /** The week just before the streak was not studied. */
  lemma {:induction false} StreakEndsUnstudied(weeks: set<IsoWeek>, d: Date)
    ensures WeekBack(d, StreakFrom(weeks, d)) !in weeks
    decreases |WeeksUpTo(weeks, d)|
  {
    if IsoCalendar(d) in weeks {
      WeeksUpToShrinks(weeks, d);
      StreakEndsUnstudied(weeks, d - 7);
    }
  }

  /** The streak is a maximal run: the `n` weeks back from `d` were all
      studied, and the week before them was not. */
  lemma StreakIsMaximalRun(weeks: set<IsoWeek>, d: Date)
    ensures forall i: nat :: i < StreakFrom(weeks, d) ==> WeekBack(d, i) in weeks
    ensures WeekBack(d, StreakFrom(weeks, d)) !in weeks
  {
    forall i: nat | i < StreakFrom(weeks, d) ensures WeekBack(d, i) in weeks {
      StreakWeekStudied(weeks, d, i);
    }
    StreakEndsUnstudied(weeks, d);
  }

  /** Conversely, any maximal run of studied weeks back from `d` has the
      streak's length. */
  lemma StreakUnique(weeks: set<IsoWeek>, d: Date, n: nat)
    requires forall i: nat :: i < n ==> WeekBack(d, i) in weeks
    requires WeekBack(d, n) !in weeks
    ensures StreakFrom(weeks, d) == n
  {
    StreakIsMaximalRun(weeks, d);
  }

  /** The source's step back by one ISO week: the previous week number, or,
      from week 1, the last week of the previous ISO year, found as the week
      holding 28 December. */
  function PrevIsoWeek(k: IsoWeek): (r: IsoWeek)
    ensures k.week >= 1 ==> r.week >= 1
    ensures r.year == k.year - 1 || (r.year == k.year && r.week == k.week - 1)
  {
    if k.week - 1 == 0 then
      IsoWeek(k.year - 1, IsoCalendar(FromYmd(k.year - 1, 12, 28)).week)
    else IsoWeek(k.year, k.week - 1)
  }

  lemma LastWeekArithmetic(x: int, len: int, r: int)
    requires len == 364 || len == 371
    requires 0 <= r < 7 && x == len - 7 + r
    ensures x / 7 + 1 == len / 7
  {
  }

  lemma FirstWeekArithmetic(x: int)
    requires 0 <= x
    ensures x / 7 == 0 <==> x < 7
  {
  }

  lemma WeekBeforeArithmetic(x: int)
    requires 7 <= x
    ensures (x - 7) / 7 == x / 7 - 1
  {
  }

  /** Seven days before the first week of ISO year `y + 1` is the last week
      of ISO year `y`. */
  lemma WeekBeforeYearStart(d: Date, y: int)
    requires IsoWeek1Monday(y + 1) <= d < IsoWeek1Monday(y + 1) + 7
    ensures IsoCalendar(d - 7) == IsoWeek(y, (IsoWeek1Monday(y + 1) - IsoWeek1Monday(y)) / 7)
  {
    var w0, w1 := IsoWeek1Monday(y), IsoWeek1Monday(y + 1);
    IsoYearLength(y);
    IsoYearUnique(d - 7, y);
    LastWeekArithmetic(d - 7 - w0, w1 - w0, d - w1);
  }

  /** Seven days before a date past the first week of its ISO year is in the
      previous week of the same ISO year. */
  lemma WeekBeforeWithinYear(d: Date, y: int)
    requires IsoWeek1Monday(y) + 7 <= d < IsoWeek1Monday(y + 1)
    ensures IsoCalendar(d - 7) == IsoWeek(y, (d - IsoWeek1Monday(y)) / 7)
  {
    IsoYearUnique(d - 7, y);
    WeekBeforeArithmetic(d - IsoWeek1Monday(y));
  }

  /** Stepping back on (year, week) pairs is stepping back seven days. */
  lemma PrevIsoWeekStep(d: Date)
    ensures PrevIsoWeek(IsoCalendar(d)) == IsoCalendar(d - 7)
  {
    var k := IsoCalendar(d);
    var w1 := IsoWeek1Monday(k.year);
    FirstWeekArithmetic(d - w1);
    if k.week == 1 {
      var y := k.year - 1;
      assert y + 1 == k.year;
      assert IsoWeek1Monday(y + 1) <= d < IsoWeek1Monday(y + 1) + 7;
      WeekBeforeYearStart(d, y);
      LastIsoWeek(y);
    } else {
      assert w1 + 7 <= d;
      WeekBeforeWithinYear(d, k.year);
    }
  }

  /** A studied week adds one to the streak of the week before it, and
      leaves fewer weeks to visit. */
  lemma StreakStep(weeks: set<IsoWeek>, d: Date)
    requires IsoCalendar(d) in weeks
    ensures StreakFrom(weeks, d) == 1 + StreakFrom(weeks, d - 7)
    ensures PrevIsoWeek(IsoCalendar(d)) == IsoCalendar(d - 7)
    ensures |WeeksUpTo(weeks, d - 7)| < |WeeksUpTo(weeks, d)|
  {
    WeeksUpToShrinks(weeks, d);
    PrevIsoWeekStep(d);
  }

  /** One step of the walk: the previous week number, or the last week of
      the previous year, found as the week holding 28 December. */
  method StepBack(year: int, week: int) returns (y: int, w: int)
    ensures IsoWeek(y, w) == PrevIsoWeek(IsoWeek(year, week))
  {
    y, w := year, week - 1;
    if w == 0 {
      y := y - 1;
      w := IsoCalendar(FromYmd(y, 12, 28)).week;
    }
  }

  /** The `while (year, week) in weeks_with_study` walk, started only when
      some week was studied. */
  method WeeklyStreak(weeks: set<IsoWeek>, today: Date) returns (streak: nat)
    ensures streak == StreakFrom(weeks, today)
  {
    streak := 0;
    if weeks != {} {
      var k := IsoCalendar(today);
      var year, week := k.year, k.week;
      ghost var cur := today;
      ghost var total := StreakFrom(weeks, today);
      while IsoWeek(year, week) in weeks
        invariant IsoWeek(year, week) == IsoCalendar(cur)
        invariant streak + StreakFrom(weeks, cur) == total
        decreases |WeeksUpTo(weeks, cur)|
      {
        ghost var here := IsoWeek(year, week);
        StreakStep(weeks, cur);
        streak := streak + 1;
        year, week := StepBack(year, week);
        assert IsoWeek(year, week) == PrevIsoWeek(here);
        cur := cur - 7;
      }
      StreakNeedsThisWeek(weeks, cur);
    } else {
      StreakNeedsThisWeek(weeks, today);
    }
  }

  /** A week without study ends the streak at 0, whatever came before it. */
  lemma StreakNeedsThisWeek(weeks: set<IsoWeek>, today: Date)
    requires IsoCalendar(today) !in weeks
    ensures StreakFrom(weeks, today) == 0
  {
  }

  // ---------------------------------------------------------------------
  // Statistics

  datatype Stats = Stats(totalMinutes: nat, completedGoals: nat, weeklyStreakWeeks: nat)

  /** The statistics of `user` on day `today`. */
  function UserStats(sessions: seq<StudySession>, outcomes: map<OutcomeKey, GoalOutcome>,
                     goals: map<GoalId, Goal>, user: UserId, today: Date): Stats
  {
    Stats(UserMinutes(sessions, user), CompletedCount(outcomes, goals, user),
          StreakFrom(StudyWeeks(sessions, user), today))
  }

  /** The statistics are bounded by the tables they aggregate: minutes out of
      the whole session table, completed rows out of the outcome table, and a
      streak only when the user studied in the current ISO week. */
  lemma UserStatsBounds(sessions: seq<StudySession>, outcomes: map<OutcomeKey, GoalOutcome>,
                        goals: map<GoalId, Goal>, user: UserId, today: Date)
    ensures UserStats(sessions, outcomes, goals, user, today).totalMinutes <= GoalServices.SumMinutes(sessions)
    ensures UserStats(sessions, outcomes, goals, user, today).completedGoals <= |outcomes|
    ensures UserStats(sessions, outcomes, goals, user, today).weeklyStreakWeeks > 0
            ==> IsoCalendar(today) in StudyWeeks(sessions, user)
  {
  }

  /** A user without sessions has no minutes and no streak. */
  lemma NoSessionsNoStreak(sessions: seq<StudySession>, outcomes: map<OutcomeKey, GoalOutcome>,
                           goals: map<GoalId, Goal>, user: UserId, today: Date)
    requires forall s :: s in sessions ==> s.user != user
    ensures UserStats(sessions, outcomes, goals, user, today).totalMinutes == 0
    ensures UserStats(sessions, outcomes, goals, user, today).weeklyStreakWeeks == 0
  {
    OthersSessionsAddNothing(sessions, user);
    assert StudyWeeks(sessions, user) == {};
  }

  /** `get_user_stats(user)`: the aggregates, then the set of studied weeks
      built session by session, then the streak walk. */
  method GetUserStats(sessions: seq<StudySession>, outcomes: map<OutcomeKey, GoalOutcome>,
                      goals: map<GoalId, Goal>, user: UserId, today: Date) returns (stats: Stats)
    ensures stats == UserStats(sessions, outcomes, goals, user, today)
  {
    var total := UserMinutes(sessions, user);
    var completed := CompletedCount(outcomes, goals, user);
    var weeks: set<IsoWeek> := {};
    for i := 0 to |sessions|
      invariant weeks == set s | s in sessions[..i] && s.user == user :: IsoCalendar(s.startedUtcOn)
    {
      assert sessions[..i + 1] == sessions[..i] + [sessions[i]];
      if sessions[i].user == user {
        weeks := weeks + {IsoCalendar(sessions[i].startedUtcOn)};
      }
    }
    assert sessions[..|sessions|] == sessions;
    var streak := WeeklyStreak(weeks, today);
    stats := Stats(total, completed, streak);
  }

  // ---------------------------------------------------------------------
  // Rules

  datatype RuleKind = TotalHoursRule | GoalsCompletedRule | WeeklyStreakRule | UnknownRule

  function KindOf(ruleType: string): RuleKind
  {
    if ruleType == "total_hours" then TotalHoursRule
    else if ruleType == "goals_completed" then GoalsCompletedRule
    else if ruleType == "weekly_streak" then WeeklyStreakRule
    else UnknownRule
  }

  /** `achievement.rule_params or {}`. */
  function Params(a: Achievement): map<string, int>
  {
    if a.ruleParams.Some? then a.ruleParams.value else map[]
  }

  /** `p.get(key, 0)`. */
  function Param(p: map<string, int>, key: string): int
  {
    if key in p then p[key] else 0
  }

  /** The parameter a rule kind reads: "weeks" for streaks, "threshold" otherwise. */
  function ParamKey(kind: RuleKind): string
  {
    if kind == WeeklyStreakRule then "weeks" else "threshold"
  }

  /** `is_eligible(achievement, stats)`: an unknown rule type is never met,
      and a known rule whose parameter is missing reads it as 0 and is always
      met. */
  predicate IsEligible(a: Achievement, s: Stats)
    ensures KindOf(a.ruleType) == UnknownRule ==> !IsEligible(a, s)
    ensures KindOf(a.ruleType) != UnknownRule
              && (a.ruleParams.None? || ParamKey(KindOf(a.ruleType)) !in a.ruleParams.value)
            ==> IsEligible(a, s)
  {
    var p := Params(a);
    match KindOf(a.ruleType)
    case TotalHoursRule => s.totalMinutes >= Param(p, "threshold") * 60
    case GoalsCompletedRule => s.completedGoals >= Param(p, "threshold")
    case WeeklyStreakRule => s.weeklyStreakWeeks >= Param(p, "weeks")
    case UnknownRule => false
  }

  /** Eligibility only grows as the statistics grow. */
  lemma EligibleMonotone(a: Achievement, s: Stats, t: Stats)
    requires s.totalMinutes <= t.totalMinutes && s.completedGoals <= t.completedGoals
    requires s.weeklyStreakWeeks <= t.weeklyStreakWeeks
    requires IsEligible(a, s)
    ensures IsEligible(a, t)
  {
  }

  // ---------------------------------------------------------------------
  // Awards

  /** Whether `user` already holds the achievement `code`. */
  predicate HasAward(rows: seq<UserAchievement>, user: UserId, code: string)
  {
    exists r :: r in rows && r.user == user && r.code == code
  }

  /** `already_have`: the codes the user holds. */
  function UserCodes(rows: seq<UserAchievement>, user: UserId): (codes: set<string>)
    ensures forall c :: c in codes <==> HasAward(rows, user, c)
  {
    set r | r in rows && r.user == user :: r.code
  }

  /** The awards an evaluation creates for `catalog`, in catalog order: each
      eligible achievement the user does not hold yet, counting the awards
      created earlier in the same evaluation. */
  function NewAwards(rows: seq<UserAchievement>, catalog: seq<Achievement>, s: Stats,
                     user: UserId, now: int): (r: seq<UserAchievement>)
    ensures |r| <= |catalog|
  {
    if catalog == [] then []
    else
      var prev := NewAwards(rows, catalog[..|catalog| - 1], s, user, now);
      var a := catalog[|catalog| - 1];
      if IsEligible(a, s) && !HasAward(rows + prev, user, a.code) then
        prev + [UserAchievement(user, a.code, now)]
      else prev
  }

  lemma AppendOne<T>(a: seq<T>, b: seq<T>, x: T)
    ensures a + (b + [x]) == (a + b) + [x]
  {
  }

  /** One more catalog entry: the awards so far, plus this entry's award
      when it is eligible and not yet held. */
  lemma NewAwardsNext(rows: seq<UserAchievement>, catalog: seq<Achievement>, i: nat, s: Stats,
                      user: UserId, now: int)
    requires i < |catalog|
    ensures NewAwards(rows, catalog[..i + 1], s, user, now)
            == (var prev := NewAwards(rows, catalog[..i], s, user, now);
                if IsEligible(catalog[i], s) && !HasAward(rows + prev, user, catalog[i].code)
                then prev + [UserAchievement(user, catalog[i].code, now)]
                else prev)
  {
    assert catalog[..i + 1][..i] == catalog[..i];
  }

  /** Every new award is the user's, dated `now`, for an eligible catalog
      entry the user did not hold before. */
  lemma {:induction false} NewAwardsSound(rows: seq<UserAchievement>, catalog: seq<Achievement>, s: Stats,
                                          user: UserId, now: int)
    ensures forall r :: r in NewAwards(rows, catalog, s, user, now) ==>
      && r.user == user && r.awardedAt == now && !HasAward(rows, user, r.code)
      && exists a :: a in catalog && a.code == r.code && IsEligible(a, s)
  {
    if catalog != [] {
      var init := catalog[..|catalog| - 1];
      NewAwardsSound(rows, init, s, user, now);
      forall r | r in NewAwards(rows, catalog, s, user, now)
        ensures exists a :: a in catalog && a.code == r.code && IsEligible(a, s)
      {
        if r in NewAwards(rows, init, s, user, now) {
          var a :| a in init && a.code == r.code && IsEligible(a, s);
          assert a in catalog;
        } else {
          assert catalog[|catalog| - 1] in catalog;
        }
      }
    }
  }

  /** Evaluation never gives a user the same achievement twice. */
  lemma {:induction false} NewAwardsKeepUnique(rows: seq<UserAchievement>, catalog: seq<Achievement>, s: Stats,
                                               user: UserId, now: int)
    requires UniqueAwards(rows)
    ensures UniqueAwards(rows + NewAwards(rows, catalog, s, user, now))
  {
    if catalog != [] {
      var init := catalog[..|catalog| - 1];
      var prev := NewAwards(rows, init, s, user, now);
      NewAwardsKeepUnique(rows, init, s, user, now);
      var a := catalog[|catalog| - 1];
      if IsEligible(a, s) && !HasAward(rows + prev, user, a.code) {
        var ua := UserAchievement(user, a.code, now);
        var all := rows + prev + [ua];
        assert rows + NewAwards(rows, catalog, s, user, now) == all;
        forall i, j | 0 <= i < j < |all|
          ensures !(all[i].user == all[j].user && all[i].code == all[j].code)
        {
          if j == |all| - 1 {
            assert all[i] in rows + prev;
          } else {
            assert all[i] == (rows + prev)[i] && all[j] == (rows + prev)[j];
          }
        }
      }
    }
  }

  /** After an evaluation the user holds every eligible catalog entry. */
  lemma {:induction false} NewAwardsComplete(rows: seq<UserAchievement>, catalog: seq<Achievement>, s: Stats,
                                             user: UserId, now: int)
    ensures forall a :: a in catalog && IsEligible(a, s) ==>
      HasAward(rows + NewAwards(rows, catalog, s, user, now), user, a.code)
  {
    if catalog != [] {
      var init := catalog[..|catalog| - 1];
      var prev := NewAwards(rows, init, s, user, now);
      var last := catalog[|catalog| - 1];
      NewAwardsComplete(rows, init, s, user, now);
      var after := rows + NewAwards(rows, catalog, s, user, now);
      forall a | a in catalog && IsEligible(a, s) ensures HasAward(after, user, a.code) {
        if a in init {
          var r :| r in rows + prev && r.user == user && r.code == a.code;
          assert r in after;
        } else {
          assert a == last;
          if !HasAward(rows + prev, user, a.code) {
            assert after[|after| - 1] == UserAchievement(user, a.code, now);
          } else {
            var r :| r in rows + prev && r.user == user && r.code == a.code;
            assert r in after;
          }
        }
      }
    }
  }

  /** When the user already holds every eligible entry, nothing is created. */
  lemma {:induction false} AllHeldNothingNew(rows: seq<UserAchievement>, catalog: seq<Achievement>, s: Stats,
                                             user: UserId, now: int)
    requires forall a :: a in catalog && IsEligible(a, s) ==> HasAward(rows, user, a.code)
    ensures NewAwards(rows, catalog, s, user, now) == []
  {
    if catalog != [] {
      var init := catalog[..|catalog| - 1];
      AllHeldNothingNew(rows, init, s, user, now);
      assert rows + [] == rows;
      assert catalog[|catalog| - 1] in catalog;
    }
  }

  /** A second evaluation over unchanged statistics awards nothing. */
  lemma EvaluateTwiceNothingNew(rows: seq<UserAchievement>, catalog: seq<Achievement>, s: Stats,
                                user: UserId, now: int, later: int)
    ensures NewAwards(rows + NewAwards(rows, catalog, s, user, now), catalog, s, user, later) == []
  {
    NewAwardsComplete(rows, catalog, s, user, now);
    AllHeldNothingNew(rows + NewAwards(rows, catalog, s, user, now), catalog, s, user, later);
  }

  /** The award table, held in insertion order. */
  class AwardTable {
    var rows: seq<UserAchievement>

    /** The `unique_together = ("user", "achievement")` constraint. */
    predicate Valid()
      reads this
    {
      UniqueAwards(rows)
    }

    constructor ()
      ensures rows == [] && Valid()
    {
      rows := [];
    }

    /** `UserAchievement.objects.get_or_create(user=..., achievement=...)`:
        finds the user's award for `code`, or appends a new one dated `now`. */
    method GetOrCreate(user: UserId, code: string, now: int) returns (ua: UserAchievement, created: bool)
      requires Valid()
      modifies this
      ensures Valid()
      ensures created <==> !HasAward(old(rows), user, code)
      ensures created ==> ua == UserAchievement(user, code, now) && rows == old(rows) + [ua]
      ensures !created ==> rows == old(rows) && ua in rows && ua.user == user && ua.code == code
    {
      var i := 0;
      while i < |rows|
        invariant 0 <= i <= |rows|
        invariant forall j :: 0 <= j < i ==> !(rows[j].user == user && rows[j].code == code)
      {
        if rows[i].user == user && rows[i].code == code {
          return rows[i], false;
        }
        i := i + 1;
      }
      ua := UserAchievement(user, code, now);
      rows := rows + [ua];
      created := true;
    }

    /** `evaluate_achievements_for_user(user)`: awards every eligible catalog
        entry the user lacks and returns exactly the awards it created. */
    method Evaluate(sessions: seq<StudySession>, outcomes: map<OutcomeKey, GoalOutcome>,
                    goals: map<GoalId, Goal>, catalog: seq<Achievement>,
                    user: UserId, today: Date, now: int) returns (awarded: seq<UserAchievement>)
      requires Valid()
      modifies this
      ensures Valid()
      ensures awarded == NewAwards(old(rows), catalog, UserStats(sessions, outcomes, goals, user, today), user, now)
      ensures rows == old(rows) + awarded
    {
      var stats := GetUserStats(sessions, outcomes, goals, user, today);
      var alreadyHave := UserCodes(rows, user);
      awarded := [];
      for i := 0 to |catalog|
        invariant Valid()
        invariant rows == old(rows) + awarded
        invariant awarded == NewAwards(old(rows), catalog[..i], stats, user, now)
      {
        var a := catalog[i];
        NewAwardsNext(old(rows), catalog, i, stats, user, now);
        if a.code in alreadyHave {
          ghost var r :| r in old(rows) && r.user == user && r.code == a.code;
          assert r in rows;
          continue;
        }
        if IsEligible(a, stats) {
          var ua, created := GetOrCreate(user, a.code, now);
          if created {
            AppendOne(old(rows), awarded, ua);
            awarded := awarded + [ua];
          }
        }
      }
      assert catalog[..|catalog|] == catalog;
    }
  }
}
