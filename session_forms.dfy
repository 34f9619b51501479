/** The study-session form: the course and goal choices offered to a user,
    and the duration check. */
module SessionForms {
  import opened Wrappers
  import opened Users
  import opened CourseModels
  import opened GoalModels

  /** The courses of `owner`, in table order (`Course.objects.filter(owner=user)`). */
  function OwnedCourses(courses: seq<Course>, owner: UserId): (r: seq<Course>)
    ensures |r| <= |courses|
    ensures forall c :: c in r <==> c in courses && c.owner == owner
  {
    if courses == [] then []
    else
      var prev := OwnedCourses(courses[..|courses| - 1], owner);
      var c := courses[|courses| - 1];
      assert courses == courses[..|courses| - 1] + [c];
      if c.owner == owner then prev + [c] else prev
  }

  /** The ids of `user`'s active goals (`Goal.objects.filter(user=user, is_active=True)`). */
  function ActiveGoalIds(goals: map<GoalId, Goal>, user: UserId): set<GoalId>
  {
    set id | id in goals && goals[id].user == user && goals[id].isActive
  }

  class StudySessionForm {
    /** The courses offered in the course field. */
    var courseChoices: seq<Course>
    /** The goals offered in the goal field. */
    var goalChoices: set<GoalId>

    /** `StudySessionForm.__init__`: with a user, the course field offers only
        that user's courses and the goal field only that user's active goals;
        without one, both keep the whole table. */
    constructor(user: Option<UserId>, courses: seq<Course>, goals: map<GoalId, Goal>)
      ensures user.Some? ==> courseChoices == OwnedCourses(courses, user.value)
      ensures user.Some? ==> goalChoices == ActiveGoalIds(goals, user.value)
      ensures user.None? ==> courseChoices == courses && goalChoices == goals.Keys
    {
      if user.Some? {
        courseChoices := OwnedCourses(courses, user.value);
        goalChoices := ActiveGoalIds(goals, user.value);
      } else {
        courseChoices := courses;
        goalChoices := goals.Keys;
      }
    }
  }

  /** `clean_duration_minutes`: durations under one minute are refused, the
      rest returned unchanged. */
  function CleanDuration(minutes: int): (r: Result<nat, string>)
    ensures r.Failure? <==> minutes < 1
    ensures r.Success? ==> r.value == minutes && r.value >= 1
  {
    if minutes < 1 then Failure("Duration must be at least 1 minute.") else Success(minutes)
  }
}
