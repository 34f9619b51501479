/** The achievements page: the catalog split into earned and locked entries,
    each locked entry carrying a progress hint towards its rule. */
module AchievementViews {
  import opened Wrappers
  import opened Users
  import opened Dates
  import opened GoalModels
  import opened SessionModels
  import opened AchievementModels
  import opened GoalServices
  import opened AchievementServices

  // ---------------------------------------------------------------------
  // Progress hints

  /** What `build_progress_hint` renders, without the wording: the target,
      where the user is, and how much is left.  Hours are in tenths. */
  datatype ProgressHint =
    | HoursHint(threshold: int, currentTenths: nat, remainingTenths: int)
    | GoalsHint(threshold: int, current: nat, remaining: int)
    | StreakHint(weeks: int, current: nat, remaining: int)
    | NoHint

  /** `max(target - current, 0)`. */
  function Remaining(target: int, current: int): (r: int)
    ensures r >= 0
    ensures r == 0 <==> current >= target
    ensures r > 0 ==> current + r == target
  {
    if target - current > 0 then target - current else 0
  }

  /** `build_progress_hint(achievement, stats)`: the rule's parameter, read
      from the parameter object with 0 when absent, against the matching
      statistic; an unknown rule gives no hint. */
  function BuildProgressHint(a: Achievement, s: Stats): (h: ProgressHint)
    ensures h.NoHint? <==> KindOf(a.ruleType) == UnknownRule
    ensures h.HoursHint? <==> KindOf(a.ruleType) == TotalHoursRule
    ensures h.GoalsHint? <==> KindOf(a.ruleType) == GoalsCompletedRule
    ensures h.StreakHint? <==> KindOf(a.ruleType) == WeeklyStreakRule
    ensures h.HoursHint? ==>
      && h.threshold == Param(Params(a), "threshold")
      && 6 * h.currentTenths <= s.totalMinutes + 3 < 6 * h.currentTenths + 6
      && h.remainingTenths == Remaining(10 * h.threshold, h.currentTenths)
    ensures h.GoalsHint? ==>
      && h.threshold == Param(Params(a), "threshold") && h.current == s.completedGoals
      && h.remaining == Remaining(h.threshold, h.current)
    ensures h.StreakHint? ==>
      && h.weeks == Param(Params(a), "weeks") && h.current == s.weeklyStreakWeeks
      && h.remaining == Remaining(h.weeks, h.current)
  {
    var p := Params(a);
    match KindOf(a.ruleType)
    case TotalHoursRule =>
      var threshold := Param(p, "threshold");
      var current := HoursInTenths(s.totalMinutes);
      HoursHint(threshold, current, Remaining(10 * threshold, current))
    case GoalsCompletedRule =>
      var threshold := Param(p, "threshold");
      GoalsHint(threshold, s.completedGoals, Remaining(threshold, s.completedGoals))
    case WeeklyStreakRule =>
      var needed := Param(p, "weeks");
      StreakHint(needed, s.weeklyStreakWeeks, Remaining(needed, s.weeklyStreakWeeks))
    case UnknownRule => NoHint
  }

  /** For goal and streak rules the hint says nothing is left exactly when
      the rule is met. */
  lemma CountHintZeroIffEligible(a: Achievement, s: Stats)
    requires KindOf(a.ruleType) == GoalsCompletedRule || KindOf(a.ruleType) == WeeklyStreakRule
    ensures var h := BuildProgressHint(a, s);
      h.remaining == 0 <==> IsEligible(a, s)
  {
  }

  /** An hours rule that is met shows nothing left. */
  lemma HoursHintZeroWhenEligible(a: Achievement, s: Stats)
    requires KindOf(a.ruleType) == TotalHoursRule
    requires IsEligible(a, s)
    ensures BuildProgressHint(a, s).remainingTenths == 0
  {
    var h := BuildProgressHint(a, s);
    assert 60 * h.threshold <= s.totalMinutes;
    assert 10 * h.threshold <= h.currentTenths;
  }

  /** The converse fails for hours: the hint rounds the minutes to tenths of
      an hour, so 58 minutes (0.966… hours, no rounding tie) against a
      one-hour rule already shows "1.0h, 0h to go" while the rule, which
      compares whole minutes, is not met. */
  lemma HoursHintZeroBeforeEligible()
    ensures var a := Achievement("h1", "One hour", "", "", "total_hours", Some(map["threshold" := 1]));
      var s := Stats(58, 0, 0);
      && BuildProgressHint(a, s).currentTenths == 10
      && BuildProgressHint(a, s).remainingTenths == 0 && !IsEligible(a, s)
  {
    var a := Achievement("h1", "One hour", "", "", "total_hours", Some(map["threshold" := 1]));
    assert KindOf(a.ruleType) == TotalHoursRule;
    assert Param(Params(a), "threshold") == 1;
  }

  // ---------------------------------------------------------------------
  // Earned and locked

  /** `earned_by_code`: the user's awards keyed by achievement code, a later
      row replacing an earlier one with the same code. */
  function EarnedByCode(rows: seq<UserAchievement>, user: UserId): (m: map<string, UserAchievement>)
    ensures forall c :: c in m <==> HasAward(rows, user, c)
    ensures forall c :: c in m ==> m[c] in rows && m[c].user == user && m[c].code == c
  {
    if rows == [] then map[]
    else
      var init := rows[..|rows| - 1];
      var last := rows[|rows| - 1];
      var m := EarnedByCode(init, user);
      assert rows == init + [last];
      if last.user == user then m[last.code := last] else m
  }

  /** The earned pairs of the catalog, in catalog order. */
  function EarnedEntries(catalog: seq<Achievement>, byCode: map<string, UserAchievement>)
    : seq<(Achievement, UserAchievement)>
  {
    if catalog == [] then []
    else
      var prev := EarnedEntries(catalog[..|catalog| - 1], byCode);
      var a := catalog[|catalog| - 1];
      if a.code in byCode then prev + [(a, byCode[a.code])] else prev
  }

  lemma PrefixOfLonger<T>(s: seq<T>, i: nat)
    requires i < |s|
    ensures s[..i + 1][..i] == s[..i] && s[..i + 1][i] == s[i]
  {
  }

  /** The locked pairs of the catalog with their hints, in catalog order. */
  function LockedEntries(catalog: seq<Achievement>, byCode: map<string, UserAchievement>, s: Stats)
    : seq<(Achievement, ProgressHint)>
  {
    if catalog == [] then []
    else
      var prev := LockedEntries(catalog[..|catalog| - 1], byCode, s);
      var a := catalog[|catalog| - 1];
      if a.code in byCode then prev else prev + [(a, BuildProgressHint(a, s))]
  }

  /** The catalog entries that satisfy (`earned`) or fail (`!earned`) the
      earned test, in catalog order. */
  function Select(catalog: seq<Achievement>, byCode: map<string, UserAchievement>, earned: bool)
    : (r: seq<Achievement>)
    ensures |r| <= |catalog|
    ensures forall a :: a in r <==> a in catalog && (a.code in byCode) == earned
  {
    if catalog == [] then []
    else
      var prev := Select(catalog[..|catalog| - 1], byCode, earned);
      var a := catalog[|catalog| - 1];
      assert catalog == catalog[..|catalog| - 1] + [a];
      if (a.code in byCode) == earned then prev + [a] else prev
  }

  function Firsts<A, B>(pairs: seq<(A, B)>): (r: seq<A>)
    ensures |r| == |pairs|
    ensures forall i :: 0 <= i < |pairs| ==> r[i] == pairs[i].0
  {
    if pairs == [] then [] else Firsts(pairs[..|pairs| - 1]) + [pairs[|pairs| - 1].0]
  }

  lemma FirstsAppend<A, B>(pairs: seq<(A, B)>, x: (A, B))
    ensures Firsts(pairs + [x]) == Firsts(pairs) + [x.0]
  {
    assert (pairs + [x])[..|pairs|] == pairs;
  }

  /** The earned list holds the catalog entries that pass the earned test,
      the locked list those that fail it, both in catalog order. */
  lemma {:induction false} EntriesFollowCatalog(catalog: seq<Achievement>, byCode: map<string, UserAchievement>,
                                                s: Stats)
    ensures Firsts(EarnedEntries(catalog, byCode)) == Select(catalog, byCode, true)
    ensures Firsts(LockedEntries(catalog, byCode, s)) == Select(catalog, byCode, false)
  {
    if catalog != [] {
      var init := catalog[..|catalog| - 1];
      var a := catalog[|catalog| - 1];
      EntriesFollowCatalog(init, byCode, s);
      if a.code in byCode {
        FirstsAppend(EarnedEntries(init, byCode), (a, byCode[a.code]));
      } else {
        FirstsAppend(LockedEntries(init, byCode, s), (a, BuildProgressHint(a, s)));
      }
    }
  }

  /** Every catalog entry lands in exactly one of the two selections. */
  lemma {:induction false} SelectIsPartition(catalog: seq<Achievement>, byCode: map<string, UserAchievement>)
    ensures multiset(Select(catalog, byCode, true)) + multiset(Select(catalog, byCode, false))
            == multiset(catalog)
  {
    if catalog != [] {
      var init := catalog[..|catalog| - 1];
      var a := catalog[|catalog| - 1];
      SelectIsPartition(init, byCode);
      assert catalog == init + [a];
    }
  }

  /** An earned pair carries the user's award for that code; a locked pair
      carries the hint for an achievement the user does not hold. */
  lemma {:induction false} EntriesCarryTheirData(catalog: seq<Achievement>, rows: seq<UserAchievement>,
                                                 user: UserId, s: Stats)
    ensures var byCode := EarnedByCode(rows, user);
      && (forall e :: e in EarnedEntries(catalog, byCode) ==>
            e.0 in catalog && e.1 in rows && e.1.user == user && e.1.code == e.0.code)
      && (forall e :: e in LockedEntries(catalog, byCode, s) ==>
            e.0 in catalog && !HasAward(rows, user, e.0.code) && e.1 == BuildProgressHint(e.0, s))
  {
    var byCode := EarnedByCode(rows, user);
    if catalog != [] {
      var init := catalog[..|catalog| - 1];
      EntriesCarryTheirData(init, rows, user, s);
      assert forall x :: x in init ==> x in catalog;
    }
  }

  /** `achievement_list`: reads the user's statistics, then walks the catalog
      once, appending each entry to `earned` with its award or to `locked`
      with its hint. */
  method AchievementList(catalog: seq<Achievement>, rows: seq<UserAchievement>,
                         sessions: seq<StudySession>, outcomes: map<OutcomeKey, GoalOutcome>,
                         goals: map<GoalId, Goal>, user: UserId, today: Date)
    returns (earned: seq<(Achievement, UserAchievement)>, locked: seq<(Achievement, ProgressHint)>)
    ensures earned == EarnedEntries(catalog, EarnedByCode(rows, user))
    ensures locked == LockedEntries(catalog, EarnedByCode(rows, user),
                                    UserStats(sessions, outcomes, goals, user, today))
  {
    var stats := GetUserStats(sessions, outcomes, goals, user, today);
    var byCode := EarnedByCode(rows, user);
    earned, locked := [], [];
    for i := 0 to |catalog|
      invariant earned == EarnedEntries(catalog[..i], byCode)
      invariant locked == LockedEntries(catalog[..i], byCode, stats)
    {
      var a := catalog[i];
      PrefixOfLonger(catalog, i);
      if a.code in byCode {
        earned := earned + [(a, byCode[a.code])];
      } else {
        locked := locked + [(a, BuildProgressHint(a, stats))];
      }
    }
    assert catalog[..|catalog|] == catalog;
  }
}
