/** The study-session record: the raw activity log the core reads.  The
    start timestamp is held as two calendar dates: the local date, which the
    `started_at__date` lookups compare (they convert to the current time
    zone), and the UTC date, which `.date()` gives on the aware UTC
    datetimes that `values_list("started_at")` returns. */
module SessionModels {
  import opened Wrappers
  import opened Users
  import opened Dates
  import CourseModels
  import GoalModels

  datatype StudySession = StudySession(
    user: UserId,
    course: CourseModels.CourseId,
    goal: Option<GoalModels.GoalId>,
    startedOn: Date,      // local calendar date of `started_at`
    startedUtcOn: Date,   // UTC calendar date of `started_at`
    durationMinutes: nat)
}
