/** The goal form's cross-field check: some target must be set, and the
    study-days figure must lie in 1..7. */
module GoalForms {
  import opened Wrappers
  import opened Users
  import opened CourseModels
  import opened GoalModels

  /** The cleaned values `GoalForm.clean` looks at; `None` is an empty or
      missing field. */
  datatype GoalFormData = GoalFormData(
    weeklyHoursTarget: Option<nat>,      // hundredths of an hour
    weeklyLessonsTarget: Option<nat>,
    totalRequiredLessons: Option<nat>,
    studyDaysPerWeek: Option<int>)

  /** What `clean` ends with: a raised form-wide error, or the cleaned data
      with the field errors added on the way.  Adding a field error drops
      that field from the cleaned data, as `add_error` does. */
  datatype GoalCleanOutcome =
    | Raised(message: string)
    | Cleaned(data: GoalFormData, fieldErrors: seq<FieldError>)

  const StudyDaysError := FieldError("study_days_per_week", "Study days per week must be between 1 and 7.")

  /** `GoalForm.clean`. */
  function CleanGoal(d: GoalFormData): (r: GoalCleanOutcome)
    ensures r.Raised? <==>
      d.weeklyHoursTarget.None? && d.weeklyLessonsTarget.None? && d.totalRequiredLessons.None?
    ensures r.Cleaned? ==>
      (r.fieldErrors != [] <==> d.studyDaysPerWeek.Some? && !(1 <= d.studyDaysPerWeek.value <= 7))
    ensures r.Cleaned? && r.fieldErrors == [] ==> r.data == d
    ensures r.Cleaned? && r.fieldErrors != [] ==>
      r.fieldErrors == [StudyDaysError] && r.data == d.(studyDaysPerWeek := None)
  {
    if d.weeklyHoursTarget.None? && d.weeklyLessonsTarget.None? && d.totalRequiredLessons.None? then
      Raised("Please set a weekly hours target, weekly lessons target, or a milestone total.")
    else if d.studyDaysPerWeek.Some? && !(1 <= d.studyDaysPerWeek.value <= 7) then
      Cleaned(d.(studyDaysPerWeek := None), [StudyDaysError])
    else Cleaned(d, [])
  }

  /** The goal a valid form saves for `user`, the other fields at their
      defaults. */
  function FormGoal(user: UserId, d: GoalFormData, days: nat): Goal
  {
    Goal(user, None, d.weeklyHoursTarget, d.weeklyLessonsTarget, days, d.totalRequiredLessons,
         None, None, None, true)
  }

  /** A form that cleans without errors, with a study-days figure, describes
      a goal that meets both check constraints of the goal table. */
  lemma CleanFormMeetsConstraints(user: UserId, d: GoalFormData)
    requires d.studyDaysPerWeek.Some? && d.studyDaysPerWeek.value >= 0
    requires CleanGoal(d).Cleaned? && CleanGoal(d).fieldErrors == []
    ensures SatisfiesConstraints(FormGoal(user, d, d.studyDaysPerWeek.value))
  {
  }

  /** Conversely, the data of a goal that meets the constraints cleans
      without errors. */
  lemma ConstrainedGoalCleans(g: Goal)
    requires SatisfiesConstraints(g)
    ensures var d := GoalFormData(g.weeklyHoursTarget, g.weeklyLessonsTarget, g.totalRequiredLessons,
                                  Some(g.studyDaysPerWeek));
      CleanGoal(d) == Cleaned(d, [])
  {
  }
}
