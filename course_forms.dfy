/** The course form: it remembers the submitting user and rejects a title
    that the same user already uses for another course, ignoring case. */
module CourseForms {
  import opened Wrappers
  import opened Users
  import opened Text
  import opened CourseModels

  /** Another course of `owner` (not the row `self` being edited) whose title
      equals `title` ignoring case: the `title__iexact` query with its
      `exclude(pk=...)`. */
  predicate TitleClash(table: seq<Course>, owner: UserId, self: Course, title: string)
  {
    exists i :: 0 <= i < |table| && table[i].owner == owner && !SameRow(table[i], self)
      && EqualsIgnoreCase(table[i].title, title)
  }

  class CourseForm {
    /** The user the form was built for, `None` when the caller gave none. */
    var user: Option<UserId>
    /** The course being created or edited. */
    var instance: Course

    /** `CourseForm.__init__`: takes the optional `user` argument out of the
        form arguments and keeps it. */
    constructor(user: Option<UserId>, instance: Course)
      ensures this.user == user && this.instance == instance
    {
      this.user := user;
      this.instance := instance;
    }

    /** `clean_title`: the stripped title, refused when the form's user
        already has another course with that title in any letter case. */
    function CleanTitle(raw: string, table: seq<Course>): (r: Result<string, string>)
      reads this
      ensures r.Failure? <==> user.Some? && TitleClash(table, user.value, instance, Strip(raw))
      ensures r.Success? ==> r.value == Strip(raw)
    {
      var title := Strip(raw);
      if user.Some? && TitleClash(table, user.value, instance, title) then
        Failure("You already have a course with this title.")
      else Success(title)
    }
  }

  /** A title the form accepts for the course's owner is used by no other
      course of that owner, so saving it keeps the (owner, title) key unique. */
  lemma AcceptedTitleIsFree(table: seq<Course>, self: Course, raw: string)
    requires !TitleClash(table, self.owner, self, Strip(raw))
    ensures forall c :: c in table && c.owner == self.owner && !SameRow(c, self) ==>
      c.title != Strip(raw)
  {
    forall c | c in table && c.owner == self.owner && !SameRow(c, self)
      ensures c.title != Strip(raw)
    {
      var i :| 0 <= i < |table| && table[i] == c;
      if c.title == Strip(raw) {
        EqualsIgnoreCaseIsEquivalence(c.title, Strip(raw), Strip(raw));
      }
    }
  }

  /** Adding the saved course to the other rows keeps the table's
      (owner, title) key unique. */
  lemma AcceptedTitleKeepsUnique(others: seq<Course>, self: Course, raw: string)
    requires UniqueOwnerTitle(others)
    requires forall c :: c in others ==> !SameRow(c, self)
    requires !TitleClash(others, self.owner, self, Strip(raw))
    ensures UniqueOwnerTitle(others + [self.(title := Strip(raw))])
  {
    AcceptedTitleIsFree(others, self, raw);
    var all := others + [self.(title := Strip(raw))];
    forall i, j | 0 <= i < j < |all|
      ensures !(all[i].owner == all[j].owner && all[i].title == all[j].title)
    {
      if j == |others| {
        assert all[i] in others;
      } else {
        assert all[i] == others[i] && all[j] == others[j];
      }
    }
  }
}
