# Study tracker: progress aggregation and evaluation, in Dafny

This project models the core of a Django study tracker. Users log study
sessions against courses and goals. Every week, the tracker freezes each
active goal's previous week into a goal-outcome row, which holds the hours
and lessons done, the targets and whether the goal was met. From the
sessions and the frozen outcomes it derives per-user statistics: total
minutes, completed goals and the run of consecutive ISO weeks with study. It
awards the achievements whose rules those statistics meet. The views
around this engine are also modelled:

- the goal detail page, which freezes, evaluates and then charts a goal's
  history;
- the manual freeze;
- the achievements page, with earned and locked entries and progress hints;
- the dashboard, with this week's minutes, the twelve-month chart per goal
  and the next hours hint;
- the course, goal and session forms and their validators;
- the contact form.

Representation:

- Dates are proleptic Gregorian day numbers, as Python's `date.toordinal`
  gives them (day 1 is Monday 1 January of year 1).
- Python's `weekday`, `isocalendar`, `replace(day=1)` and `date(y, 12, 28)`
  are defined in `Dates` and proved against the ISO 8601 week rules: week 1
  holds the year's first Thursday, and weeks run Monday to Sunday.
- Hours are whole tenths of an hour, as the freeze's `quantize(0.1,
  ROUND_HALF_UP)` makes them. Hour targets (`DecimalField(decimal_places=2)`)
  are whole hundredths.
- The tables are Dafny values:
  - goals: `map<GoalId, Goal>`;
  - sessions: `seq<StudySession>`;
  - courses: `seq<Course>`;
  - the achievement catalogue: `seq<Achievement>`.
- The two tables that the engine writes are classes whose methods update
  them in place:
  - the goal-outcome table (`OutcomeStore`, a map keyed by goal and week
    start, the key `update_or_create` uses);
  - the awards table (`AwardTable`, unique per user and achievement code);
  - the contact-message inbox is a class too.

Loops in the source are methods with loop invariants, proved against
specification functions. Those methods are:

- the freeze's pass over the active goals;
- the award loop;
- the streak walk;
- the slug search;
- the month list;
- the `data_by_goal` grouping;
- the hint loop;
- the outcome history.

Lemmas about the specification functions state what the code promises:

- freezing twice writes the same rows, and a second freeze updates every
  active goal and creates none;
- the streak is exactly the run of studied weeks that ends at this week;
- evaluation awards exactly the eligible achievements the user does not yet
  hold, never twice, and a second evaluation awards nothing;
- the earned and locked lists partition the catalogue in catalogue order.

A discrepancy in the source is proved as a concrete case. The locked-hours
hint rounds minutes to tenths of an hour. The rule compares whole minutes.
So at 58 minutes against a one-hour rule, the page shows "0h to go" while
the achievement stays locked (`AchievementViews.HoursHintZeroBeforeEligible`).

## Model

| member | source | states |
|---|---|---|
| Text.StripLeft | courses/forms.py:83 | the result is a suffix of the input; everything dropped is whitespace and the first remaining character is not |
| Text.StripRight | courses/forms.py:83 | the result is a prefix of the input; everything dropped is whitespace and the last remaining character is not |
| Text.Strip | tracker/views.py:70-72 | `str.strip`: the result is the input's middle slice; only whitespace was removed at either end, and the result neither starts nor ends with whitespace |
| Text.StripEmptyIffBlank | tracker/views.py:74 | a stripped field is empty exactly when every character of the input is whitespace |
| Text.Lower | courses/forms.py:85 | ASCII capitals map to their own lower-case letter (code point plus 32), and every other character is unchanged |
| Text.LowerFoldsOnlyCase | courses/forms.py:85 | two characters fold together exactly when they are equal or one is the other's ASCII capital |
| Text.EqualsIgnoreCaseIsEquivalence | courses/forms.py:85 | the case-insensitive `iexact` comparison is reflexive, symmetric and transitive |
| Text.NatToString | courses/models.py:175 | the decimal rendering of a number is non-empty, all digits, and has no leading zero |
| Text.ParseNatToString | courses/models.py:175 | reading the decimal rendering back gives the number (round trip) |
| Text.NatToStringInjective | courses/models.py:175 | different numbers render differently |
| Dates.Weekday | goals/services.py:30 | `date.weekday`: a value in 0..6, and the date minus its weekday is a Monday |
| Dates.WeekdayShift | goals/services.py:61-62 | moving a whole number of weeks keeps the weekday |
| Dates.FormulaStep | achievements/services.py:56 | the closed-form day count of 1 January grows by the year's length, with the 4/100/400 leap rule |
| Dates.JanFirstClosedForm | achievements/services.py:56 | 1 January computed year by year equals the closed form |
| Dates.YearLength | achievements/services.py:56 | consecutive New Year's days are a year's length apart |
| Dates.JanFirstMonotone | achievements/services.py:56 | 1 January advances at least 365 days per year |
| Dates.YearUp | achievements/services.py:41 | the search upwards from a year not after the date ends at the year containing the date |
| Dates.GuessNotAfter | achievements/services.py:41 | the first guess of the year never lies after the date |
| Dates.YearOf | achievements/services.py:41 | the calendar year of a date: its 1 January is on or before the date, and the next one is after it |
| Dates.YearOfUnique | achievements/services.py:41 | only one year contains a given date |
| Dates.DaysBeforeMonth | tracker/views.py:161 | days in the year before a month's first day, between 0 and 335 |
| Dates.DaysInMonth | tracker/views.py:161 | a month has 28 to 31 days, and consecutive month starts are that far apart |
| Dates.DecemberTwentyEighth | achievements/services.py:56 | `date(y, 12, 28)` is four days before the next 1 January |
| Dates.MonthFrom | tracker/views.py:161 | the month whose day range contains a given day of the year |
| Dates.MonthOf | tracker/views.py:161 | `today.replace(day=1)`: a valid month whose first day is on or before the date, with the date within that month's length |
| Dates.IsoWeek1Monday | achievements/services.py:41 | the Monday of ISO week 1 is a Monday within three days of 1 January, the week holding the year's first Thursday |
| Dates.IsoYearLength | achievements/services.py:56 | an ISO year has 52 or 53 weeks |
| Dates.IsoWeek1MondayMonotone | achievements/services.py:41 | week-1 Mondays advance by at least 52 weeks per year |
| Dates.IsoCalendar | achievements/services.py:41 | `isocalendar()`: the ISO year's span contains the date, and the week is the number of whole weeks since week 1's Monday, plus one |
| Dates.IsoYearsDisjoint | achievements/services.py:41 | two ISO years' spans never overlap |
| Dates.IsoYearUnique | achievements/services.py:41 | a date in an ISO year's span has that ISO year |
| Dates.SameMondaySameWeek | achievements/services.py:42 | two ISO weeks with the same Monday are the same week |
| Dates.IsoMondayInjective | achievements/services.py:42 | dates whose ISO weeks start on the same Monday share the ISO (year, week) key |
| Dates.MondayOfWeek | goals/services.py:30 | the Monday of a date's ISO week is the date minus its weekday, and the date is less than seven days after it |
| Dates.IsoMondayOfDate | tracker/views.py:130 | the Monday of a date's ISO week is the date minus its weekday |
| Dates.LastIsoWeek | achievements/services.py:56 | 28 December lies in the year's last ISO week, so its week number is the year's week count |
| CourseModels.Clean | courses/models.py:150-158 | `Course.clean`: an `end_date` error exactly when both dates are set and the end is before the start |
| CourseModels.IsActive | courses/models.py:191-198 | active exactly when the status is Active and today is within the optional start and end dates |
| CourseModels.CandidateInjective | courses/models.py:175 | the candidate slugs `base-2`, `base-3`, … are pairwise different |
| CourseModels.SlugBase | courses/models.py:169 | `slugify(title)[:120]`: a prefix of the slugified title, all of it when it has at most 120 characters and exactly 120 characters otherwise |
| CourseModels.NextCandidateIsNew | courses/models.py:171-176 | a candidate with a higher suffix than all those tried is not among them |
| CourseModels.FirstFreeCandidate | courses/models.py:171-176 | the search returns the first candidate not taken by the owner's other courses; every earlier one is taken |
| CourseModels.AssignSlug | courses/models.py:168-176 | `save`: an existing slug is kept; otherwise the base, or the first free `base-i`, that no other course of the owner uses |
| GoalModels.NewGoal | goals/models.py:29-67 | a new goal is the user's, active and without course, with the given targets, 5 study days, no milestone and no average; it meets the table's constraints exactly when some target is set |
| GoalModels.GoalLabel | goals/models.py:70-76 | `Goal.__str__`: "<user> Goal", then " · <course>" when a course is set, then " · <milestone>" when a non-empty milestone is set, and nothing else (the length is the sum of those parts) |
| AchievementModels.NewAchievement | achievements/models.py:30-35 | a new achievement has an empty `rule_params` object |
| AchievementModels.AwardLabel | achievements/models.py:71-76 | `UserAchievement.__str__`: the username, " - ", then the code |
| GoalForms.CleanGoal | goals/forms.py:48-65 | `GoalForm.clean`: an error is raised exactly when no target is set; a study-days figure outside 1..7 adds a field error and drops that field; otherwise the data is unchanged |
| GoalForms.CleanFormMeetsConstraints | goals/forms.py:55-63 | a form that cleans without errors saves a goal that meets both check constraints |
| GoalForms.ConstrainedGoalCleans | goals/models.py:57-67 | a goal that meets the constraints cleans without errors |
| CourseForms.CourseForm.constructor | courses/forms.py:56-70 | the form keeps the optional user and the instance being edited |
| CourseForms.CourseForm.CleanTitle | courses/forms.py:72-92 | `clean_title`: refused exactly when the form has a user who has another course with the stripped title in any letter case; otherwise the stripped title |
| CourseForms.AcceptedTitleIsFree | courses/forms.py:84-91 | an accepted title is used by no other course of the owner |
| CourseForms.AcceptedTitleKeepsUnique | courses/models.py:125-128 | saving an accepted title keeps the (owner, title) constraint |
| SessionForms.OwnedCourses | study_sessions/forms.py:51 | the course choices are exactly the user's courses |
| SessionForms.StudySessionForm.constructor | study_sessions/forms.py:36-53 | with a user, only their courses and active goals are offered; without one, everything |
| SessionForms.CleanDuration | study_sessions/forms.py:55-68 | `clean_duration_minutes`: refused exactly below one minute; otherwise unchanged |
| GoalServices.MondayOf | goals/services.py:20-30 | `_monday_of_week`: a Monday on or before the date, less than a week before it |
| GoalServices.SundayOf | goals/services.py:33-43 | `_sunday_of_week`: six days after the Monday, so a Sunday |
| GoalServices.LastWeekRange | goals/services.py:46-64 | a Monday-to-Sunday week containing the day seven days before today |
| GoalServices.LastWeekPrecedesThisWeek | goals/services.py:46-64 | last week runs from seven days before this week's Monday to the day before it |
| GoalServices.LastWeekExample | goals/tests/test_freeze_on_view.py:32 | on 3 Nov 2025, last week is 27 Oct to 2 Nov |
| GoalServices.GoalSessions | goals/services.py:122-126 | exactly the goal's sessions dated within the window, both ends inclusive, each as many times as it occurs in the table |
| GoalServices.NoGoalSessions | goals/services.py:122-126 | with no session of the goal in the window, the selection is empty |
| GoalServices.SumMinutes | goals/services.py:129-132 | `Sum("duration_minutes") or 0`: no session's minutes exceed the total |
| GoalServices.SumMinutesAppend | goals/services.py:129-132 | the minute total of two lists is the sum of their totals |
| GoalServices.HoursInTenths | goals/services.py:133-135 | minutes to hours rounded half-up to a tenth: the nearest tenth, with halves rounded up |
| GoalServices.MeetsHoursTarget | goals/services.py:154 | `hours >= hours_target` on tenths and hundredths is the comparison of the two decimal values |
| GoalServices.ComputeOutcome | goals/services.py:128-166 | the frozen row: rounded hours and session count of the goal's window sessions, the targets copied, and completed exactly when the hours target or the lessons target is reached |
| GoalServices.NoSessionsFreezeToZero | goals/services.py:128-157 | a week without sessions freezes to zero hours and zero lessons, completed only by a zero target |
| GoalServices.FreezeExample | goals/tests/test_freeze_on_view.py:29-51 | a 1.5 h goal with sessions of 90 and 30 minutes in the window freezes to 2.0 h and two lessons, and is completed |
| GoalServices.EffectiveWindow | goals/services.py:115-116 | the given range when both ends are given, otherwise last week |
| GoalServices.FrozenKeyFresh | goals/services.py:172-176 | a goal outside a set has no frozen row among that set's rows |
| GoalServices.FrozenAmongAdd | goals/services.py:120-178 | freezing one more goal adds its row and keeps the others |
| GoalServices.UpsertStep | goals/services.py:172-178 | one `update_or_create` moves the partial upsert one goal forward, as a creation or as an update |
| GoalServices.CountStep | goals/services.py:177-178 | the created and updated counts grow by one on the matching side |
| GoalServices.UpsertedRows | goals/services.py:120-178 | after the freeze, each active goal's row for the week is its computed outcome; every other row is untouched |
| GoalServices.CreatedPlusUpdated | goals/services.py:177-185 | created plus updated equals the number of active goals |
| GoalServices.FreezeIdempotent | goals/tests/test_freeze_on_view.py:53-55 | freezing the same week twice gives the same rows; the second run creates nothing and updates every active goal |
| OutcomeStores.OutcomeStore.constructor | goals/services.py:172 | the outcome table starts empty |
| OutcomeStores.OutcomeStore.Freeze | goals/services.py:108-185 | on a non-Monday without a range, nothing changes and the summary is empty; a dry run reports the window without writing; otherwise the rows are the upsert of every active goal's outcome, with the created and updated counts |
| OutcomeStores.OutcomeStore.UpdateOrCreate | goals/services.py:172-176 | the row is written under its key, and the flag says whether the key was new |
| OutcomeStores.OutcomeStore.UpsertActive | goals/services.py:118-178 | the loop over active goals leaves the upserted rows and counts the created and updated keys |
| AchievementServices.UserMinutesAppend | achievements/services.py:17-21 | a user's minute total adds over concatenated session lists |
| AchievementServices.OthersSessionsAddNothing | achievements/services.py:17-21 | other users' sessions contribute no minutes (the `or 0` case) |
| AchievementServices.UserMinutes | achievements/services.py:17-21 | the user's minute total is at most the whole table's, and equals it when every session is the user's |
| AchievementServices.CompletedCount | achievements/services.py:25-28 | the count of the user's completed outcome rows, at most the table size |
| AchievementServices.CompletedCountGrows | achievements/services.py:25-28 | a new completed row of the user's goal raises the count by exactly one |
| AchievementServices.WeekBackIsDaysEarlier | achievements/services.py:50-56 | stepping back `i` ISO weeks lands on the ISO week of the date `7*i` days earlier |
| AchievementServices.StudyWeeks | achievements/services.py:31-45 | the weeks with study, by each session's UTC date, are empty exactly when the user has no session |
| AchievementServices.WeeksUpToShrinks | achievements/services.py:50 | stepping back past a studied week leaves fewer studied weeks at or before it, so the walk ends |
| AchievementServices.StreakFrom | achievements/services.py:44-56 | the streak counts studied weeks, so it never exceeds the number of studied weeks up to this one |
| AchievementServices.StreakWeekStudied | achievements/services.py:50-56 | every week inside the streak was studied |
| AchievementServices.StreakEndsUnstudied | achievements/services.py:50-56 | the week just before the streak was not studied |
| AchievementServices.StreakIsMaximalRun | achievements/services.py:44-56 | the streak is a run of studied weeks ending this week, and cannot be extended |
| AchievementServices.StreakUnique | achievements/services.py:44-56 | any run length with those two properties equals the streak |
| AchievementServices.WeekBeforeYearStart | achievements/services.py:53-56 | the week before an ISO year's week 1 is the previous year's last week |
| AchievementServices.WeekBeforeWithinYear | achievements/services.py:52 | inside an ISO year, the week before is the previous week number |
| AchievementServices.PrevIsoWeek | achievements/services.py:52-56 | the decrement stays on a positive week number, in the same year one week earlier or in the previous year |
| AchievementServices.PrevIsoWeekStep | achievements/services.py:52-56 | the source's `week -= 1` with the year wrap-around is the ISO week seven days earlier |
| AchievementServices.StreakStep | achievements/services.py:50-52 | a studied week adds one to the streak of the week before |
| AchievementServices.StepBack | achievements/services.py:52-56 | the decrement with the wrap to `date(year, 12, 28).isocalendar()[1]` computes the previous ISO week |
| AchievementServices.WeeklyStreak | achievements/services.py:44-56 | the backward walk returns exactly the streak ending this week |
| AchievementServices.StreakNeedsThisWeek | achievements/services.py:50 | with the current week unstudied, the streak is zero |
| AchievementServices.NoSessionsNoStreak | achievements/services.py:17-56 | a user with no sessions has zero minutes and a zero streak |
| AchievementServices.UserStatsBounds | achievements/services.py:11-62 | the minutes are at most the session table's total, the completed count at most the outcome table's size, and a streak needs study in the current ISO week |
| AchievementServices.GetUserStats | achievements/services.py:11-62 | the statistics are the user's minute total, completed outcome count and weekly streak, with studied weeks taken from each session's UTC date |
| AchievementServices.IsEligible | achievements/services.py:65-84 | `is_eligible`: an unknown rule type is never met; a known rule without its parameter reads it as 0 and is always met |
| AchievementServices.EligibleMonotone | achievements/services.py:65-84 | eligibility is kept when every statistic grows |
| AchievementServices.UserCodes | achievements/services.py:94-97 | `already_have`: exactly the codes the user holds |
| AchievementServices.NewAwards | achievements/services.py:99-113 | one evaluation creates at most one award per catalogue entry |
| AchievementServices.NewAwardsSound | achievements/services.py:101-111 | every new award is the user's, for an eligible catalogue achievement not already held |
| AchievementServices.NewAwardsKeepUnique | achievements/models.py:68-69 | adding the new awards keeps (user, achievement) unique |
| AchievementServices.NewAwardsComplete | achievements/services.py:101-111 | every eligible catalogue achievement is afterwards held, either already or newly |
| AchievementServices.AllHeldNothingNew | achievements/services.py:102-103 | when every eligible achievement is held, nothing is awarded |
| AchievementServices.EvaluateTwiceNothingNew | achievements/services.py:90 | evaluation is idempotent: a second run awards nothing |
| AchievementServices.AwardTable.constructor | achievements/models.py:68-69 | the awards table starts empty and unique |
| AchievementServices.AwardTable.GetOrCreate | achievements/services.py:106-109 | `get_or_create`: creates the award exactly when the user lacks that code, keeping (user, achievement) unique; otherwise returns the held row unchanged |
| AchievementServices.AwardTable.Evaluate | achievements/services.py:87-113 | `evaluate_achievements_for_user`: appends and returns exactly the new awards for the user's current statistics, keeping uniqueness |
| AchievementViews.Remaining | achievements/views.py:94 | `max(target - current, 0)`: zero exactly when the target is reached, otherwise the gap |
| AchievementViews.BuildProgressHint | achievements/views.py:66-117 | the hint kind follows the rule type (no hint for unknown rules), with the threshold, the current value and the remaining gap for that rule |
| AchievementViews.CountHintZeroIffEligible | achievements/views.py:100-116 | for goal and streak rules, nothing remains exactly when the rule is met |
| AchievementViews.HoursHintZeroWhenEligible | achievements/views.py:91-98 | an eligible hours rule shows nothing remaining |
| AchievementViews.HoursHintZeroBeforeEligible | achievements/views.py:93-94 | at 58 minutes against one hour, the hint shows nothing remaining while the rule is not met |
| AchievementViews.EarnedByCode | achievements/views.py:44-46 | the user's awards keyed by code: exactly the codes held, each mapped to a held row of that code |
| AchievementViews.Firsts | achievements/views.py:55-57 | the achievements of the (achievement, extra) pairs, in order |
| AchievementViews.Select | achievements/views.py:52-57 | the catalogue entries that are (or are not) earned, exactly, never more than the catalogue |
| AchievementViews.EntriesFollowCatalog | achievements/views.py:52-57 | the earned and locked lists list the earned and the unearned catalogue entries in catalogue order |
| AchievementViews.SelectIsPartition | achievements/views.py:52-57 | the earned and locked achievements together are the catalogue as a multiset |
| AchievementViews.EntriesCarryTheirData | achievements/views.py:53-57 | each earned entry carries the user's award of that code; each locked entry carries its progress hint |
| AchievementViews.AchievementList | achievements/views.py:44-62 | the page's earned and locked lists are the entries above, the locked hints built from `get_user_stats` for the user |
| GoalViews.UserGoals | goals/views.py:174-181 | the requesting user's goals, exactly |
| GoalViews.UserGoalsDisjoint | goals/views.py:174-181 | two users never see the same goal |
| GoalViews.ManualFreeze | goals/views.py:25-51 | last week is frozen; an authenticated user then gets exactly the new awards for the post-freeze statistics, and an anonymous one gets none |
| GoalViews.FreezeFeedsEvaluation | goals/views.py:198-202 | a goal completed last week counts as completed in the evaluation that follows the freeze |
| GoalViews.GoalWeeks | goals/views.py:210 | the week starts of the goal's outcome rows |
| GoalViews.LatestExists | goals/views.py:210 | a non-empty set of week starts has a latest one |
| GoalViews.PrependKeepsOrder | goals/views.py:210 | putting an earlier stored week in front keeps the list ascending and stored |
| GoalViews.PrependLists | goals/views.py:210 | prepending a row adds its week to the weeks listed |
| GoalViews.PrependBound | goals/views.py:210 | the remaining weeks all precede the new list |
| GoalViews.GoalHistory | goals/views.py:210 | `order_by("week_start")`: every outcome row of the goal, once each, strictly ascending by week |
| GoalViews.Recent | goals/views.py:211 | `qs.reverse()[:26][::-1]`: the last 26 rows, or all when there are fewer, in ascending order |
| GoalViews.RecentAreLatest | goals/views.py:211 | the recent rows ascend, and every row left out is earlier than all of them |
| GoalViews.ChartOf | goals/views.py:214-240 | one chart point per history row, with its week, its hours, its targets and its lessons, and `None` kept for a missing value |
| GoalViews.ChartCoversRecent | goals/views.py:211-214 | the chart covers the whole history, including the recent rows |
| GoalViews.GoalDetail | goals/views.py:183-242 | a goal that is not the user's is not found and nothing changes; otherwise last week is frozen, awards are evaluated on the frozen rows, and the outcomes and the chart come from the ordered history |
| TrackerViews.CurrentWeek | tracker/views.py:130-131 | this week runs from Monday, on or before today, to the next Monday, after today |
| TrackerViews.ShownWeekEnd | tracker/views.py:270 | the displayed week end is the Sunday |
| TrackerViews.CurrentWeekIsFreezerWeek | tracker/views.py:130 | the dashboard's week is the freeze's Monday-to-Sunday week |
| TrackerViews.CurrentWeekIsIsoWeek | tracker/views.py:133-137 | a date is in this week exactly when it has today's ISO week |
| TrackerViews.SameWeekIffSameMonday | tracker/views.py:133-137 | the same, stated for dates and their ISO week keys |
| TrackerViews.WeekSessions | tracker/views.py:133-137 | exactly the user's sessions dated from Monday up to, but not including, next Monday, each as many times as it occurs in the table |
| TrackerViews.WeekSessionsWithinTotal | tracker/views.py:138-141 | this week's minutes never exceed the user's total minutes |
| TrackerViews.WeeklyMinutes | tracker/views.py:138-141 | this week's minutes never exceed the user's total minutes |
| TrackerViews.PrevMonth | tracker/views.py:168-171 | the month before, wrapping from January to the previous December |
| TrackerViews.MonthIndexInjective | tracker/views.py:166-171 | different months have different indices |
| TrackerViews.Reverse | tracker/views.py:172 | the list reversed |
| TrackerViews.MonthList | tracker/views.py:160-172 | twelve months, oldest first, ending with the current month, each one month after the one before |
| TrackerViews.MonthListConsecutive | tracker/views.py:166-172 | each listed month follows the one before, wrapping at December |
| TrackerViews.HasRowAppend | tracker/views.py:189-199 | one more aggregate row adds its goal and its month |
| TrackerViews.GoalOrderContents | tracker/views.py:194-198 | the goal order lists each goal that has a row exactly once |
| TrackerViews.GroupByGoalKeys | tracker/views.py:194-198 | `data_by_goal` has exactly those goals, each with its label or "Goal <id>" |
| TrackerViews.GroupByGoalMonths | tracker/views.py:199 | a goal's series has exactly the months of that goal's rows |
| TrackerViews.GroupByGoalValues | tracker/views.py:188-199 | each (goal, month) aggregate row's hours appear under that goal and month |
| TrackerViews.DataByGoal | tracker/views.py:188-199 | the loop builds the grouping and the goal order above |
| TrackerViews.Series | tracker/views.py:211 | one value per listed month, the stored value or 0 |
| TrackerViews.Datasets | tracker/views.py:208-222 | one dataset per goal in order, with its label and series |
| TrackerViews.ChartLineValues | tracker/views.py:208-222 | each chart point is the goal's aggregate for that month, or 0 |
| TrackerViews.NextHoursHint | tracker/views.py:248-257 | a hint only for the first unearned hours achievement, with a positive remainder; no hint when all are earned |
| TrackerViews.NextHoursHintShown | tracker/views.py:248-257 | the first unearned hours achievement decides: the hint is shown, with the tenths still missing and its title, exactly when its threshold is above the current hours |
| TrackerViews.NextHoursHintLoop | tracker/views.py:248-257 | the loop with its `break` computes that hint |
| TrackerViews.HoursAchievements | tracker/views.py:242-246 | exactly the catalogue's `total_hours` achievements |
| TrackerViews.HintNamesLowestUnearned | tracker/views.py:242-257 | with achievements ordered by threshold, the hint names the lowest unearned threshold |
| TrackerViews.Inbox.constructor | tracker/models.py:6-26 | the contact inbox starts empty |
| TrackerViews.Inbox.Submit | tracker/views.py:69-80 | a message is stored exactly when the stripped name, e-mail and message are all non-empty, with the stripped values and the optional user; otherwise nothing changes |
| TrackerViews.ContactRefusedIffBlank | tracker/views.py:74-91 | a submission is refused exactly when some field is blank |

## Left out

- The database, the ORM and transactions are not modelled. Queries become
  functions over the tables, and `update_or_create` and `get_or_create` are
  map and sequence updates. Concurrent requests are not modelled.
- The clock is a parameter. The freeze reads the Europe/London date, and
  `last_week_range` and the views read `timezone.localdate()`; both are one
  `today` parameter. Sessions carry two dates: the local date, which the
  `started_at__date` lookups compare, and the UTC date, which `.date()` on
  the aware datetimes of `values_list("started_at")` gives and the streak
  uses. The conversion between them is not modelled.
  Award times are an integer parameter.
- The years are unbounded. Python's 1..9999 range and its `OverflowError`
  are not modelled.
- `slugify` is an input (the slugified title).
- `input_formats` and the date widgets are not modelled. Neither is Django's
  field-level validation that runs before `clean`.
- Messages, HTTP responses, redirects and templates are not modelled. The
  same holds for `strftime`/`isoformat` labels, JSON encoding,
  `random_colour` and the dry-run `print`.
- The dashboard's recent sessions, recent outcomes, recent achievements and
  `active_goals_count` are plain queries with no logic. They are not
  modelled.
- The monthly aggregate (`TruncMonth`, `Sum`, `order_by("month")`) is an
  input list of (goal, month, hours) rows. `GroupedRows` says it has one row
  per goal and month.
- The dict order of `data_by_goal` is modelled by `GoalOrder`: a goal's
  first appearance.
- The `order_by("rule_params__threshold")` query is an input assumed sorted
  (`TrackerViews.HintNamesLowestUnearned`).
- The freeze management command and the fake-history seeding command are
  not modelled.
- The goal create and update views are not modelled. They pass `user=` to
  `GoalForm`, which defines no `__init__` (goals/forms.py:5-65), so Django's
  `ModelForm.__init__` raises `TypeError` on every such request
  (goals/views.py:88-97 and 135-144). The goal delete view and the course
  create, update and delete views only pass data to the tables and are not
  modelled either.
- CourseForms.CourseForm.CleanTitle: `title__iexact` folds case as SQLite's
  `LIKE` does, ASCII letters only. On PostgreSQL `UPPER` folds Unicode
  letters too, so titles differing only in non-ASCII case would clash there
  and not here.
- `StudySession.__str__` and `Course.__str__` are not modelled: one formats
  float hours and the other returns the title.
- Hour targets are whole hundredths and hours whole tenths. The chart's
  `float(...)` conversions and `round(..., 2)` are exact on those values and
  are not modelled as floats.
- TrackerViews.WeeklyMinutes: the dashboard's `round(total_minutes / 60.0,
  2)` is given as minutes; the float hours are not modelled.
- AchievementViews.BuildProgressHint: `round(minutes / 60, 1)` on a Python
  float is modelled as rounding half-up to tenths. Python rounds the binary
  value, so a few exact ties (e.g. 15 minutes, 0.25 h) round down there.
- TrackerViews.NextHoursHint: the same rounding of current hours as above.
  A rule with a JSON `null` parameter object would raise in the dashboard;
  it is read as an empty object here.
- Parameters in `rule_params` that are not whole numbers are not modelled
  (JSON floats or strings). Thresholds are integers.
