/** The goal record and its frozen weekly outcome.  Hour figures are exact
    integers: a `DecimalField(decimal_places=2)` is held in hundredths of an
    hour and a one-decimal hours figure in tenths of an hour. */
module GoalModels {
  import opened Wrappers
  import opened Users
  import opened Dates
  import CourseModels

  type GoalId = nat

  /** A study goal: weekly targets, a milestone, and a lifecycle flag. */
  datatype Goal = Goal(
    user: UserId,
    course: Option<CourseModels.CourseId>,
    weeklyHoursTarget: Option<nat>,      // hundredths of an hour
    weeklyLessonsTarget: Option<nat>,
    studyDaysPerWeek: nat,
    totalRequiredLessons: Option<nat>,
    milestoneName: Option<string>,
    milestoneDate: Option<Date>,
    avgHoursPerLesson: Option<nat>,      // hundredths of an hour
    isActive: bool)

  /** The `goals_days_between_1_and_7` check constraint. */
  predicate DaysBetweenOneAndSeven(g: Goal)
  {
    1 <= g.studyDaysPerWeek <= 7
  }

  /** The `goals_need_some_target` check constraint: at least one (not exactly
      one) of the three targets is set. */
  predicate NeedsSomeTarget(g: Goal)
  {
    g.weeklyHoursTarget.Some? || g.weeklyLessonsTarget.Some? || g.totalRequiredLessons.Some?
  }

  /** Both check constraints of the goal table. */
  predicate SatisfiesConstraints(g: Goal)
  {
    DaysBetweenOneAndSeven(g) && NeedsSomeTarget(g)
  }

  /** A goal created with only the given targets: the field defaults are five
      study days, an active goal, and every other optional field unset. */
  function NewGoal(user: UserId, weeklyHoursTarget: Option<nat>, weeklyLessonsTarget: Option<nat>,
                   totalRequiredLessons: Option<nat>): (g: Goal)
    ensures g.user == user && g.isActive && g.course.None?
    ensures g.weeklyHoursTarget == weeklyHoursTarget && g.weeklyLessonsTarget == weeklyLessonsTarget
    ensures g.totalRequiredLessons == totalRequiredLessons
    ensures g.studyDaysPerWeek == 5 && DaysBetweenOneAndSeven(g)
    ensures g.milestoneName.None? && g.milestoneDate.None? && g.avgHoursPerLesson.None?
    ensures SatisfiesConstraints(g) <==>
      (weeklyHoursTarget.Some? || weeklyLessonsTarget.Some? || totalRequiredLessons.Some?)
  {
    Goal(user, None, weeklyHoursTarget, weeklyLessonsTarget, 5, totalRequiredLessons,
         None, None, None, true)
  }

  /** `Goal.__str__`: "<user> Goal", then the course title when a course is
      set, then the milestone name when it is non-empty, each after " · ". */
  function GoalLabel(username: string, courseTitle: Option<string>, milestoneName: Option<string>): (s: string)
    ensures |username| + 5 <= |s| && s[..|username| + 5] == username + " Goal"
    ensures s == username + " Goal" <==>
      (courseTitle.None? && (milestoneName.None? || milestoneName.value == ""))
    ensures courseTitle.Some? ==>
      && |username| + 8 + |courseTitle.value| <= |s|
      && s[|username| + 5..|username| + 8 + |courseTitle.value|] == " · " + courseTitle.value
    ensures |s| == |username| + 5
      + (if courseTitle.Some? then 3 + |courseTitle.value| else 0)
      + (if milestoneName.Some? && milestoneName.value != "" then 3 + |milestoneName.value| else 0)
    ensures milestoneName.Some? && milestoneName.value != "" ==>
      s[|s| - 3 - |milestoneName.value|..] == " · " + milestoneName.value
  {
    var base := username + " Goal";
    var withCourse := if courseTitle.Some? then base + (" · " + courseTitle.value) else base;
    assert withCourse[..|base|] == base;
    var s := if milestoneName.Some? && milestoneName.value != "" then withCourse + (" · " + milestoneName.value)
             else withCourse;
    assert s[..|withCourse|] == withCourse;
    s
  }

  /** The key of the goal-outcome table: one row per goal and week start. */
  datatype OutcomeKey = OutcomeKey(goal: GoalId, weekStart: Date)

  /** A frozen weekly outcome; the targets are the goal's at freeze time. */
  datatype GoalOutcome = GoalOutcome(
    hoursCompleted: nat,           // tenths of an hour
    lessonsCompleted: nat,
    hoursTarget: Option<nat>,      // hundredths of an hour
    lessonsTarget: Option<nat>,
    completed: bool,
    weekEnd: Date)
}
